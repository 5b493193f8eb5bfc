/**
 Generating the names of one request (`NameGenerator`): recipes are filled in item by item, other recipes being
 generated on the way, and every name is validated and stored before the next one.
 */
module NameGenerator {
  import opened Wrappers
  import opened SequenceFormat
  import opened NameTable
  import opened SequenceGenerator
  import opened NameAttempts
  import opened NamingPolicy

  datatype Response = Response(externalKey: Option<string>, resourceName: Option<string>, value: string)

  /** The names generated so far in the request, by relaxed naming type. */
  type Memo = map<string, Response>

  /** Nothing remembered is forgotten or changed, except perhaps the entry `but`. */
  ghost predicate Extends(old': Memo, new': Memo, but: Option<string>) {
    forall t :: t in old' ==> t in new' && (but != Some(t) ==> new'[t] == old'[t])
  }

  /** A row in use bears this name, and its type has this relaxed form. */
  ghost predicate Holds(rows: seq<Row>, i: nat, relaxed: string, name: string) {
    i < |rows| && rows[i].released != Yes && rows[i].name == name && Relaxed(rows[i].elementType) == relaxed
  }

  ghost predicate Held(rows: seq<Row>, relaxed: string, name: string) {
    exists i: nat :: Holds(rows, i, relaxed, name)
  }

  /** Every remembered name is held by a row in use. */
  ghost predicate MemoHeld(memo: Memo, rows: seq<Row>) {
    forall t :: t in memo ==> Held(rows, t, memo[t].value)
  }

  lemma HeldKept(rows: seq<Row>, rows': seq<Row>, relaxed: string, name: string)
    requires KeepsUsed(rows, rows') && Held(rows, relaxed, name)
    ensures Held(rows', relaxed, name)
  {
    var i: nat :| Holds(rows, i, relaxed, name);
    assert Holds(rows', i, relaxed, name);
  }

  lemma MemoHeldKept(memo: Memo, rows: seq<Row>, rows': seq<Row>)
    requires KeepsUsed(rows, rows') && MemoHeld(memo, rows)
    ensures MemoHeld(memo, rows')
  {
    forall t | t in memo ensures Held(rows', t, memo[t].value) {
      HeldKept(rows, rows', t, memo[t].value);
    }
  }

  /** A name validated and stored: the effect is that one row. */
  lemma StoredOne(rows: seq<Row>, row: Row)
    requires Valid(rows, row)
    ensures Effect(rows, [row], Store(rows, row))
  {
    assert [row][1..] == [];
    assert Validated(Store(rows, row), []);
  }

  /** The row that goes with a name. */
  function RowFor(elementType: string, externalId: Option<string>, data: SeqGenData): Row {
    NewRow(elementType, data.name, externalId, data.number, data.prefix, data.suffix)
  }

  /** One step of a request: it stores validated rows and remembers more names. */
  ghost predicate Step(rows: seq<Row>, memo: Memo, stored: seq<Row>, rows': seq<Row>, memo': Memo,
                       but: Option<string>) {
    Effect(rows, stored, rows') && Extends(memo, memo', but)
  }

  /** What holds between steps. */
  ghost predicate Consistent(rows: seq<Row>, memo: Memo) {
    KeyUnique(rows) && MemoHeld(memo, rows)
  }

  lemma NoStep(rows: seq<Row>, memo: Memo, but: Option<string>)
    ensures Step(rows, memo, [], rows, memo, but)
  {
  }

  lemma StepRows(rows: seq<Row>, memo: Memo, stored: seq<Row>, rows': seq<Row>, memo': Memo)
    requires Step(rows, memo, stored, rows', memo', None)
    ensures rows' == StoreAll(rows, stored) && forall but :: Step(rows, memo, stored, rows', memo', but)
  {
  }

  lemma StepExtends(rows: seq<Row>, memo: Memo, stored: seq<Row>, rows': seq<Row>, memo': Memo)
    requires Step(rows, memo, stored, rows', memo', None)
    ensures Extends(memo, memo', None)
  {
  }

  lemma StepTrans(rows: seq<Row>, memo: Memo, a: seq<Row>, rows': seq<Row>, memo': Memo, b: seq<Row>,
                  rows'': seq<Row>, memo'': Memo, but: Option<string>)
    requires Step(rows, memo, a, rows', memo', None) && Step(rows', memo', b, rows'', memo'', but)
    ensures Step(rows, memo, a + b, rows'', memo'', but)
  {
    EffectConcat(rows, a, rows', b, rows'');
  }

  /** Storing a valid row and remembering its name. */
  lemma StepStore(rows: seq<Row>, memo: Memo, row: Row, response: Response)
    requires Consistent(rows, memo) && Valid(rows, row) && response.value == row.name
    ensures var t := Relaxed(row.elementType);
            && Step(rows, memo, [row], Store(rows, row), memo[t := response], Some(t))
            && Consistent(Store(rows, row), memo[t := response])
            && row in Store(rows, row)
  {
    var rows', t := Store(rows, row), Relaxed(row.elementType);
    StoredOne(rows, row);
    StoreKeepsUsed(rows, row);
    StoreKeepsKey(rows, row);
    MemoHeldKept(memo, rows, rows');
    var i :| 0 <= i < |rows'| && rows'[i] == row;
    assert Holds(rows', i, t, row.name);
  }

  // ---------------------------------------------------------------- where a name comes from

  /**
   `reached` is the value an item has by itself, or else the name remembered for the type it refers to; it is nothing
   only when no model has that type, or when the name is a placeholder.
   */
  ghost predicate Reaches(models: seq<NamingModel>, model: NamingModel, element: Element, item: string,
                          reached: Option<string>, memo: Memo) {
    if OwnValue(model, element, item).Some? then reached == OwnValue(model, element, item)
    else if reached.Some? then Relaxed(item) in memo && reached.value == memo[Relaxed(item)].value
    else
      || FindRelaxed(models, item) == |models|
      || (Relaxed(item) in memo && Placeholder(memo[Relaxed(item)].value))
  }

  /** What the recipe item is filled with. */
  ghost predicate FilledWith(models: seq<NamingModel>, model: NamingModel, element: Element, item: string, v: Segment,
                             memo: Memo) {
    if item == "SEQUENCE"
        then v == (if ValueOf(element, item).Some? then Text(ValueOf(element, item).value) else Sequence)
    else v.Text? && exists reached ::
        Reaches(models, model, element, item, reached, memo) && model.finish(reached, item) == Some(v.text)
  }

  ghost predicate AllFilled(models: seq<NamingModel>, model: NamingModel, element: Element, values: Values,
                            memo: Memo) {
    forall item :: item in values ==> FilledWith(models, model, element, item, values[item], memo)
  }

  /** The item comes to nothing: what it reaches is taken away by the property operations, or there is nothing. */
  ghost predicate Unfilled(models: seq<NamingModel>, model: NamingModel, element: Element, item: string, memo: Memo) {
    exists reached :: Reaches(models, model, element, item, reached, memo) && model.finish(reached, item).None?
  }

  lemma UnfilledKept(models: seq<NamingModel>, model: NamingModel, element: Element, item: string, memo: Memo,
                     memo': Memo)
    requires Unfilled(models, model, element, item, memo) && Extends(memo, memo', None)
    ensures Unfilled(models, model, element, item, memo')
  {
    var reached :| Reaches(models, model, element, item, reached, memo) && model.finish(reached, item).None?;
    assert Reaches(models, model, element, item, reached, memo');
  }

  lemma FilledKept(models: seq<NamingModel>, model: NamingModel, element: Element, values: Values, memo: Memo,
                   memo': Memo)
    requires AllFilled(models, model, element, values, memo) && Extends(memo, memo', None)
    ensures AllFilled(models, model, element, values, memo')
  {
    forall item | item in values ensures FilledWith(models, model, element, item, values[item], memo') {
      assert FilledWith(models, model, element, item, values[item], memo);
      if item != "SEQUENCE" {
        var reached :| Reaches(models, model, element, item, reached, memo)
            && model.finish(reached, item) == Some(values[item].text);
        assert Reaches(models, model, element, item, reached, memo');
      }
    }
  }

  /** The quest for a name by a model whose recipe is filled in. */
  function QuestFor(model: NamingModel, namingType: string, values: Values, maxGenAttempt: int,
                    increments: Option<seq<int>>): Quest
    requires model.recipe.Some? && AllPresent(values, model.recipe.value)
  {
    var d := model.sequence;
    Quest(namingType, Prefix(values, model.recipe.value), Suffix(values, model.recipe.value),
          Policy(d.start, d.increment, ChosenMax(d.kind, d.length, d.max)), d.kind, d.length, model.operate,
          AtLeastOne(maxGenAttempt), increments)
  }

  /** What the attempts come to for a recipe that is filled in. */
  function NamedBy(model: NamingModel, namingType: string, values: Values, rows: seq<Row>, maxGenAttempt: int,
                   increments: Option<seq<int>>): Result<SeqGenData, Failure>
    requires model.recipe.Some? && AllPresent(values, model.recipe.value)
             && (increments.Some? ==> |increments.value| > 0)
  {
    if Numbered(values, model.recipe.value, model.sequence.scope)
    then Outcome(rows, QuestFor(model, namingType, values, maxGenAttempt, increments))
    else Plain(rows, namingType, model.operate(Assemble(values, model.recipe.value, None)))
  }

  /** The attempts go by the sequence of the model's policy, at least once, over the recipe before and after it. */
  lemma QuestFields(model: NamingModel, namingType: string, values: Values, maxGenAttempt: int,
                    increments: Option<seq<int>>)
    requires model.recipe.Some? && AllPresent(values, model.recipe.value)
    ensures var q, d := QuestFor(model, namingType, values, maxGenAttempt, increments), model.sequence;
            && q.elementType == namingType && q.operate == model.operate && q.increments == increments
            && q.policy.start == d.start && q.policy.increment == d.increment
            && q.kind == d.kind && q.length == d.length
            && (d.max.Some? && ParseLong(d.max.value, Radix(d.kind)).Some? ==>
                  q.policy.max == ParseLong(d.max.value, Radix(d.kind)).value)
            && (d.max.None? ==> q.policy.max == Power(Radix(d.kind), if d.length <= 0 then 3 else d.length) - 1)
            && (maxGenAttempt > 0 ==> q.maxGenAttempt == maxGenAttempt)
            && (maxGenAttempt <= 0 ==> q.maxGenAttempt == 1)
  {
    hide Prefix, Suffix, ParseLong, Power;
  }

  /**
   The name that the attempts come to is the operation's result for the texts of the recipe. In place of the sequence it
   has the formatted number, or the text `null` for a scope of which the generator does not know.
   */
  lemma NamedText(model: NamingModel, namingType: string, values: Values, rows: seq<Row>, maxGenAttempt: int,
                  increments: Option<seq<int>>)
    requires model.recipe.Some? && (increments.Some? ==> |increments.value| > 0)
    requires AllPresent(values, model.recipe.value) && OneSequence(values, model.recipe.value)
    requires NamedBy(model, namingType, values, rows, maxGenAttempt, increments).Ok?
    ensures var data := NamedBy(model, namingType, values, rows, maxGenAttempt, increments).value;
            var recipe, d := model.recipe.value, model.sequence;
            if "SEQUENCE" in recipe && values["SEQUENCE"].Sequence? then
              var prefix, suffix := Prefix(values, recipe), SuffixText(values, recipe);
              if d.scope == Some("PRECEEDING") || d.scope == Some("ENTIRETY") then
                && Format(data.number, d.kind, d.length).Some?
                && data.name == model.operate(prefix + Format(data.number, d.kind, d.length).value + suffix)
              else data.name == model.operate(prefix + "null" + suffix)
            else data.name == model.operate(Assemble(values, recipe, None))
  {
    hide Format, Prefix, SuffixText, Outcome, ChosenMax, OneSequence;
    var recipe := model.recipe.value;
    if "SEQUENCE" in recipe && values["SEQUENCE"].Sequence? {
      SuffixStored(values, recipe);
      if Numbered(values, recipe, model.sequence.scope) {
        OutcomeName(rows, QuestFor(model, namingType, values, maxGenAttempt, increments));
      } else {
        NullText(values, recipe);
        NameIsComposed(values, recipe, "null");
      }
    }
  }

  lemma {:induction false} NullText(values: Values, recipe: seq<string>)
    requires AllPresent(values, recipe)
    ensures Assemble(values, recipe, Some("null")) == Assemble(values, recipe, None)
  {
    if |recipe| > 0 {
      NullText(values, recipe[1..]);
    }
  }

  /** The name of a recipe that is filled in, with a sequence read from the policy for it. */
  method NameFilled(table: Table, model: NamingModel, namingType: string, values: Values, maxGenAttempt: int,
                    increments: Option<seq<int>>) returns (data: Result<SeqGenData, Failure>)
    requires model.recipe.Some? && AllPresent(values, model.recipe.value) && OneSequence(values, model.recipe.value)
    requires increments.Some? ==> |increments.value| > 0
    ensures data == NamedBy(model, namingType, values, table.rows, maxGenAttempt, increments)
    ensures data.Ok? ==> FindByName(table.rows, namingType, data.value.name, false).NoRow?
  {
    hide Outcome;
    hide Plain;
    hide Prefix;
    hide Suffix;
    hide Assemble;
    hide Numbered;
    hide ChosenMax;
    hide OneSequence;
    hide FindByName;
    var d := model.sequence;
    var s := new PolicySequence(d.start, d.increment, d.length, d.max, d.kind, d.scope);
    data := GenerateNameWithSequences(table, namingType, values, model.recipe.value, s, model.operate, maxGenAttempt,
                                      increments);
  }

  /** How a generated name came about: the values filled in, what was remembered then, and what the attempts came to. */
  datatype Origin = Origin(values: Values, memo: Memo, data: SeqGenData) | Nowhere

  /** The name is what the attempts come to for the recipe so filled, over the table as it was then. */
  ghost predicate Composed(models: seq<NamingModel>, model: NamingModel, namingType: string, element: Element,
                           o: Origin, rows: seq<Row>, maxGenAttempt: int, increments: Option<seq<int>>) {
    && o.Origin? && model.recipe.Some? && (increments.Some? ==> |increments.value| > 0)
    && AllPresent(o.values, model.recipe.value) && OneSequence(o.values, model.recipe.value)
    && AllFilled(models, model, element, o.values, o.memo)
    && Ok(o.data) == NamedBy(model, namingType, o.values, rows, maxGenAttempt, increments)
  }

  // ---------------------------------------------------------------- why a generation fails

  /**
   The model has no recipe; an item of it comes to nothing; the attempts for the recipe filled in come to no name; or
   the recipe of an item fails, be it that the model found for it has no type.
   */
  datatype Cause = NoCause | RecipeMissing | ItemMissing(i: nat) | AttemptsFail(values: Values) | TypeMissing
                 | Within(i: nat, cause: Cause)

  /** The limits of the service and the elements of the request at hand. */
  datatype Setting = Setting(all: seq<Element>, maxGenAttempt: int, increments: Option<seq<int>>)

  /** Generating a name by the model fails for this cause, with these rows and names by then. */
  ghost predicate Explains(cause: Cause, models: seq<NamingModel>, m: nat, namingType: string, element: Element,
                           e: Failure, rows: seq<Row>, memo: Memo, setting: Setting)
    decreases cause, 0
  {
    && m < |models|
    && (cause.RecipeMissing? || models[m].recipe.Some?)
    && match cause
       case RecipeMissing => models[m].recipe.None? && e == NoRecipe
       case ItemMissing(i) =>
         && e == MissingItem && i < |models[m].recipe.value| && models[m].recipe.value[i] != "SEQUENCE"
         && Unfilled(models, models[m], element, models[m].recipe.value[i], memo)
       case AttemptsFail(values) =>
         && AllPresent(values, models[m].recipe.value) && AllFilled(models, models[m], element, values, memo)
         && (setting.increments.Some? ==> |setting.increments.value| > 0)
         && NamedBy(models[m], namingType, values, rows, setting.maxGenAttempt, setting.increments) == Err(e)
       case Within(i, inner) =>
         && i < |models[m].recipe.value| && Follows(models[m], element, models[m].recipe.value[i])
         && ExplainsItem(inner, models, models[m].recipe.value[i], element, e, rows, memo, setting)
       case _ => false
  }

  /** Generating the name that an item refers to fails for this cause. */
  ghost predicate ExplainsItem(cause: Cause, models: seq<NamingModel>, item: string, element: Element, e: Failure,
                               rows: seq<Row>, memo: Memo, setting: Setting)
    decreases cause, 1
  {
    var k := FindRelaxed(models, item);
    && k < |models|
    && match TypeOf(models[k])
       case None => cause == TypeMissing && e == NoNamingType
       case Some(t) => Explains(cause, models, k, t, ElementOf(setting.all, t, element), e, rows, memo, setting)
  }

  lemma ExplainNoRecipe(models: seq<NamingModel>, m: nat, namingType: string, element: Element, rows: seq<Row>,
                        memo: Memo, setting: Setting)
    requires m < |models| && models[m].recipe.None?
    ensures Explains(RecipeMissing, models, m, namingType, element, NoRecipe, rows, memo, setting)
  {
  }

  lemma ExplainMissing(models: seq<NamingModel>, m: nat, namingType: string, element: Element, i: nat, rows: seq<Row>,
                       memo: Memo, setting: Setting)
    requires m < |models| && models[m].recipe.Some? && i < |models[m].recipe.value|
    requires models[m].recipe.value[i] != "SEQUENCE"
    requires Unfilled(models, models[m], element, models[m].recipe.value[i], memo)
    ensures Explains(ItemMissing(i), models, m, namingType, element, MissingItem, rows, memo, setting)
  {
  }

  lemma ExplainAttempts(models: seq<NamingModel>, m: nat, namingType: string, element: Element, values: Values,
                        rows: seq<Row>, memo: Memo, setting: Setting, e: Failure)
    requires m < |models| && models[m].recipe.Some? && AllPresent(values, models[m].recipe.value)
    requires AllFilled(models, models[m], element, values, memo)
    requires setting.increments.Some? ==> |setting.increments.value| > 0
    requires NamedBy(models[m], namingType, values, rows, setting.maxGenAttempt, setting.increments) == Err(e)
    ensures Explains(AttemptsFail(values), models, m, namingType, element, e, rows, memo, setting)
  {
    hide NamedBy, AllFilled;
  }

  lemma ExplainWithin(models: seq<NamingModel>, m: nat, namingType: string, element: Element, i: nat, inner: Cause,
                      e: Failure, rows: seq<Row>, memo: Memo, setting: Setting)
    requires m < |models| && models[m].recipe.Some? && i < |models[m].recipe.value|
    requires Follows(models[m], element, models[m].recipe.value[i])
    requires ExplainsItem(inner, models, models[m].recipe.value[i], element, e, rows, memo, setting)
    ensures Explains(Within(i, inner), models, m, namingType, element, e, rows, memo, setting)
  {
    hide ExplainsItem;
  }

  lemma ExplainItem(cause: Cause, models: seq<NamingModel>, item: string, element: Element, e: Failure,
                    rows: seq<Row>, memo: Memo, setting: Setting)
    requires FindRelaxed(models, item) < |models|
    requires var k := FindRelaxed(models, item);
             match TypeOf(models[k])
             case None => cause == TypeMissing && e == NoNamingType
             case Some(t) => Explains(cause, models, k, t, ElementOf(setting.all, t, element), e, rows, memo, setting)
    ensures ExplainsItem(cause, models, item, element, e, rows, memo, setting)
  {
    hide Explains, ElementOf, FindRelaxed;
  }

  // ---------------------------------------------------------------- recipes that refer to no other recipe

  /** Every item of the recipe has a value by itself, which the property operations finish. */
  ghost predicate SelfContained(model: NamingModel, element: Element) {
    && model.recipe.Some?
    && forall item :: item in model.recipe.value && item != "SEQUENCE" ==>
         OwnValue(model, element, item).Some? && model.finish(OwnValue(model, element, item), item).Some?
  }

  /** A recipe that refers to no other fails only in its attempts for a name. */
  lemma AloneFailsInAttempts(cause: Cause, models: seq<NamingModel>, m: nat, namingType: string, element: Element,
                             e: Failure, rows: seq<Row>, memo: Memo, setting: Setting)
    requires Explains(cause, models, m, namingType, element, e, rows, memo, setting)
    requires SelfContained(models[m], element)
    ensures cause.AttemptsFail?
  {
    hide NamedBy, AllFilled, ExplainsItem, OwnValue;
  }

  /** Every model has its type and a recipe, and the property operations always come to a value. */
  ghost predicate Complete(models: seq<NamingModel>) {
    forall model :: model in models ==>
      TypeOf(model).Some? && model.recipe.Some? && forall v, item :: model.finish(v, item).Some?
  }

  /** The attempts for some recipe of the policy, filled in, come to no name. */
  ghost predicate NothingFree(models: seq<NamingModel>, k: nat, namingType: string, values: Values, rows: seq<Row>,
                              setting: Setting, e: Failure) {
    && k < |models| && models[k].recipe.Some? && AllPresent(values, models[k].recipe.value)
    && (setting.increments.Some? ==> |setting.increments.value| > 0)
    && NamedBy(models[k], namingType, values, rows, setting.maxGenAttempt, setting.increments) == Err(e)
  }

  /**
   With complete models a generation, however deep its recipes refer to each other, fails only when the attempts for one
   of the recipes come to no name.
   */
  lemma {:induction false} CompleteFailsInAttempts(cause: Cause, models: seq<NamingModel>, m: nat, namingType: string,
                                                   element: Element, e: Failure, rows: seq<Row>, memo: Memo,
                                                   setting: Setting)
    requires Explains(cause, models, m, namingType, element, e, rows, memo, setting) && Complete(models)
    ensures exists k: nat, t, values :: NothingFree(models, k, t, values, rows, setting, e)
    decreases cause
  {
    hide NamedBy, AllFilled, OwnValue, FindRelaxed, ElementOf;
    assert models[m] in models;
    match cause {
      case AttemptsFail(values) => assert NothingFree(models, m, namingType, values, rows, setting, e);
      case Within(i, inner) =>
        var k := FindRelaxed(models, models[m].recipe.value[i]);
        assert models[k] in models;
        var t := TypeOf(models[k]).value;
        CompleteFailsInAttempts(inner, models, k, t, ElementOf(setting.all, t, element), e, rows, memo, setting);
      case _ =>
    }
  }

  /** What such an item is filled with. */
  function OwnSegment(model: NamingModel, element: Element, item: string): Segment
    requires SelfContained(model, element) && item in model.recipe.value
  {
    if item != "SEQUENCE" then Text(model.finish(OwnValue(model, element, item), item).value)
    else if ValueOf(element, item).Some? then Text(ValueOf(element, item).value)
    else Sequence
  }

  /** The values of the first `n` items. */
  function OwnValues(model: NamingModel, element: Element, n: nat): (r: Values)
    requires SelfContained(model, element) && n <= |model.recipe.value|
    ensures AllPresent(r, model.recipe.value[..n])
  {
    if n == 0 then map[]
    else
      var item := model.recipe.value[n - 1];
      OwnValues(model, element, n - 1)[item := OwnSegment(model, element, item)]
  }

  /** The values of a recipe that refers to no other. */
  function ValuesAlone(model: NamingModel, element: Element): (r: Values)
    requires SelfContained(model, element)
    ensures AllPresent(r, model.recipe.value)
  {
    assert model.recipe.value[..|model.recipe.value|] == model.recipe.value;
    OwnValues(model, element, |model.recipe.value|)
  }

  /**
   The answer to a request for such a name, and the rows it stores: what the attempts come to over the table as it is,
   stored under the key of the element and handed out with its resource name.
   */
  ghost predicate AnsweredAlone(model: NamingModel, namingType: string, element: Element, rows: seq<Row>,
                                maxGenAttempt: int, increments: Option<seq<int>>, r: Result<Response, Failure>,
                                stored: seq<Row>)
    requires SelfContained(model, element) && (increments.Some? ==> |increments.value| > 0)
  {
    var key := ValueOf(element, EXTERNAL_KEY);
    match NamedBy(model, namingType, ValuesAlone(model, element), rows, maxGenAttempt, increments)
    case Err(e) => r == Err(e) && stored == []
    case Ok(data) =>
      && r == Ok(Response(key, ValueOf(element, RESOURCE_NAME), data.name))
      && stored == [RowFor(namingType, key, data)]
  }

  /** The model that a request element selects: the first of its policy with exactly its type. */
  ghost predicate Selects(element: Element, policies: Policies, m: nat) {
    var policyName, t := ValueOf(element, POLICY_NAME), ValueOf(element, NAMING_TYPE);
    && policyName.Some? && t.Some? && policyName.value in policies && m < |policies[policyName.value]|
    && policies[policyName.value][m].namingType == t
    && forall j :: 0 <= j < m ==> policies[policyName.value][j].namingType != t
  }

  /** If the model selected refers to no other recipe, the answer is what it comes to alone. */
  ghost predicate AnsweredIfAlone(element: Element, policies: Policies, rows: seq<Row>, maxGenAttempt: int,
                                  increments: Option<seq<int>>, r: Result<Response, Failure>, stored: seq<Row>)
    requires increments.Some? ==> |increments.value| > 0
  {
    forall m: nat :: Selects(element, policies, m) ==>
      var model := policies[ValueOf(element, POLICY_NAME).value][m];
      SelfContained(model, element) ==>
        AnsweredAlone(model, ValueOf(element, NAMING_TYPE).value, element, rows, maxGenAttempt, increments, r, stored)
  }

  lemma AloneHasRecipe(model: NamingModel, element: Element)
    ensures SelfContained(model, element) ==> model.recipe.Some?
  {
  }

  lemma ErrStoresNothing(element: Element, policies: Policies, rows: seq<Row>, maxGenAttempt: int,
                         increments: Option<seq<int>>, e: Failure, stored: seq<Row>)
    requires increments.Some? ==> |increments.value| > 0
    requires AnsweredIfAlone(element, policies, rows, maxGenAttempt, increments, Err(e), stored)
    ensures AnsweredIfAlone(element, policies, rows, maxGenAttempt, increments, Err(e), [])
  {
    hide NamedBy;
  }

  lemma NoneFilled(models: seq<NamingModel>, model: NamingModel, element: Element, memo: Memo)
    ensures AllFilled(models, model, element, map[], memo)
  {
  }

  lemma SequenceFilled(models: seq<NamingModel>, model: NamingModel, element: Element, v: Segment, memo: Memo)
    requires v == if ValueOf(element, "SEQUENCE").Some? then Text(ValueOf(element, "SEQUENCE").value) else Sequence
    ensures FilledWith(models, model, element, "SEQUENCE", v, memo)
  {
  }

  lemma FilledAfter(models: seq<NamingModel>, model: NamingModel, element: Element, values: Values, rows: seq<Row>,
                    memo: Memo, stored: seq<Row>, rows': seq<Row>, memo': Memo)
    requires AllFilled(models, model, element, values, memo) && Step(rows, memo, stored, rows', memo', None)
    ensures AllFilled(models, model, element, values, memo')
  {
    FilledKept(models, model, element, values, memo, memo');
  }

  /** The items so far without a value come to nothing. */
  ghost predicate OthersUnfilled(models: seq<NamingModel>, model: NamingModel, element: Element, values: Values,
                                 n: nat, memo: Memo) {
    model.recipe.Some? && n <= |model.recipe.value|
    && forall j :: 0 <= j < n && model.recipe.value[j] !in values ==>
         model.recipe.value[j] != "SEQUENCE" && Unfilled(models, model, element, model.recipe.value[j], memo)
  }

  lemma OthersMore(models: seq<NamingModel>, model: NamingModel, element: Element, values: Values, n: nat, memo: Memo,
                   values': Values, memo': Memo)
    requires OthersUnfilled(models, model, element, values, n, memo) && n < |model.recipe.value|
    requires Extends(memo, memo', None) && values.Keys <= values'.Keys
    requires model.recipe.value[n] in values'
             || (model.recipe.value[n] != "SEQUENCE"
                 && Unfilled(models, model, element, model.recipe.value[n], memo'))
    ensures OthersUnfilled(models, model, element, values', n + 1, memo')
  {
    hide Unfilled, Extends;
    forall j | 0 <= j < n && model.recipe.value[j] !in values'
      ensures Unfilled(models, model, element, model.recipe.value[j], memo')
    {
      UnfilledKept(models, model, element, model.recipe.value[j], memo, memo');
    }
  }

  /** Where an item is missing, it is not a recipe by itself. */
  lemma NotAlone(model: NamingModel, element: Element, values: Values, i: nat)
    requires model.recipe.Some? && i < |model.recipe.value| && model.recipe.value[i] !in values
    requires SelfContained(model, element) ==> values == OwnValues(model, element, |model.recipe.value|)
    ensures !SelfContained(model, element)
  {
    assert model.recipe.value[..|model.recipe.value|] == model.recipe.value;
  }

  lemma FilledMore(models: seq<NamingModel>, model: NamingModel, element: Element, values: Values, item: string,
                   v: Segment, memo: Memo)
    requires AllFilled(models, model, element, values, memo) && FilledWith(models, model, element, item, v, memo)
    ensures AllFilled(models, model, element, values[item := v], memo)
  {
  }

  /** A name as a value for other recipes, which must not be a placeholder. */
  function Unplaced(name: string): Option<string> {
    if Placeholder(name) then None else Some(name)
  }

  /**
   A name made by a model: composed over the table with the rows stored for its items, stored last, remembered and
   handed out under the key and the resource name of the element.
   */
  ghost predicate Made(models: seq<NamingModel>, model: NamingModel, namingType: string, element: Element, o: Origin,
                       rows: seq<Row>, stored: seq<Row>, response: Response, memo: Memo, setting: Setting) {
    var n := |stored| - 1;
    && n >= 0
    && Composed(models, model, namingType, element, o, StoreAll(rows, stored[..n]), setting.maxGenAttempt,
                setting.increments)
    && stored[n] == RowFor(namingType, ValueOf(element, EXTERNAL_KEY), o.data)
    && response == Response(ValueOf(element, EXTERNAL_KEY), ValueOf(element, RESOURCE_NAME), o.data.name)
    && memo == o.memo[Relaxed(namingType) := response]
  }

  /** A name made by a model for the element of the model's type. */
  ghost predicate MadeFor(models: seq<NamingModel>, model: NamingModel, current: Element, rows: seq<Row>,
                          stored: seq<Row>, response: Response, memo: Memo, setting: Setting) {
    && TypeOf(model).Some?
    && exists o: Origin ::
        Made(models, model, TypeOf(model).value, ElementOf(setting.all, TypeOf(model).value, current), o, rows, stored,
             response, memo, setting)
  }

  lemma MadeByModel(models: seq<NamingModel>, model: NamingModel, current: Element, rows: seq<Row>, stored: seq<Row>,
                    response: Response, memo: Memo, o: Origin, setting: Setting)
    requires TypeOf(model).Some?
    requires var t := TypeOf(model).value;
             Made(models, model, t, ElementOf(setting.all, t, current), o, rows, stored, response, memo, setting)
    ensures MadeFor(models, model, current, rows, stored, response, memo, setting)
  {
    hide Made;
  }

  /** The state shared by all generators of a request. */
  class Session {
    const table: Table
    const allElements: seq<Element>
    const maxGenAttempt: int
    const increments: Option<seq<int>>
    var earlierNames: Memo
    var earlierNamingTypes: seq<string>

    constructor (table: Table, allElements: seq<Element>, maxGenAttempt: int, increments: Option<seq<int>>)
      ensures this.table == table && this.allElements == allElements
      ensures this.maxGenAttempt == maxGenAttempt && this.increments == increments
      ensures earlierNames == map[] && earlierNamingTypes == []
    {
      this.table, this.allElements := table, allElements;
      this.maxGenAttempt, this.increments := maxGenAttempt, increments;
      earlierNames, earlierNamingTypes := map[], [];
    }

    ghost function Limits(): Setting {
      Setting(allElements, maxGenAttempt, increments)
    }

    ghost predicate Ready()
      reads this, table
    {
      (increments.Some? ==> |increments.value| > 0) && Consistent(table.rows, earlierNames)
    }

    /** The recipes end for the elements of this request. */
    ghost predicate Usable(models: seq<NamingModel>, rank: Rank) {
      Acyclic(models, rank, allElements) && SingleSequences(models)
    }

    /** An item without a value refers to a model of lower rank, whose type is the item's once both are relaxed. */
    lemma RankFalls(models: seq<NamingModel>, m: nat, item: string, element: Element, rank: Rank)
      requires m < |models| && Usable(models, rank) && rank(m, element).Some?
      requires models[m].recipe.Some? && item in models[m].recipe.value && item != "SEQUENCE"
      requires OwnValue(models[m], element, item).None? && FindRelaxed(models, item) < |models|
      ensures var k := FindRelaxed(models, item);
              TypeOf(models[k]).Some? ==>
                var t := TypeOf(models[k]).value;
                var next := rank(k, ElementOf(allElements, t, element));
                Relaxed(t) == Relaxed(item) && next.Some? && next.value < rank(m, element).value
    {
      hide Relaxed, FindRelaxed, OwnValue, ElementOf, TypeOf;
      assert Follows(models[m], element, item) && Falls(models, m, element, item, rank, allElements);
      RelaxedType(models, item);
    }

    lemma RelaxedType(models: seq<NamingModel>, item: string)
      requires FindRelaxed(models, item) < |models|
      ensures var t := TypeOf(models[FindRelaxed(models, item)]); t.Some? ==> Relaxed(t.value) == Relaxed(item)
    {
      hide Relaxed, FindRelaxed;
      FoundTypeMatches(models, item);
    }

    /** The first request element of a naming type, or the current one without its key and name. */
    method ElementFor(namingType: string, current: Element) returns (element: Element)
      ensures element == ElementOf(allElements, namingType, current)
    {
      var i := 0;
      while i < |allElements| && ValueOf(allElements[i], NAMING_TYPE) != Some(namingType)
        invariant i <= |allElements| && FirstOf(allElements, namingType, 0) == FirstOf(allElements, namingType, i)
      {
        i := i + 1;
      }
      if i < |allElements| {
        element := allElements[i][NAMING_TYPE := namingType];
      } else {
        element := current[NAMING_TYPE := namingType] - {EXTERNAL_KEY, RESOURCE_NAME};
      }
    }

    /**
     Generates a name by a model, its items first. A generation reached from another recipe is `recursive`: it is only
     begun for a type that is not remembered yet, and it leaves every remembered name as it is.
     */
    method GenerateNew(models: seq<NamingModel>, m: nat, namingType: string, element: Element, ghost rank: Rank,
                       ghost recursive: bool)
      returns (r: Result<Response, Failure>, ghost stored: seq<Row>, ghost origin: Origin, ghost cause: Cause)
      requires m < |models| && Usable(models, rank) && rank(m, element).Some? && Ready()
      requires recursive ==> Relaxed(namingType) !in earlierNames
      modifies this`earlierNames, table
      decreases rank(m, element).value, 3
      ensures Ready()
      ensures Step(old(table.rows), old(earlierNames), stored, table.rows, earlierNames,
                   if recursive then None else Some(Relaxed(namingType)))
      ensures r.Ok? ==> Relaxed(namingType) in earlierNames && earlierNames[Relaxed(namingType)] == r.value
      ensures r.Ok? ==> Named(table.rows, namingType, r.value.value)
      ensures r.Ok? ==> origin.Origin?
      ensures r.Ok? ==> Made(models, models[m], namingType, element, origin, old(table.rows), stored, r.value,
                             earlierNames, Limits())
      ensures r.Err? ==>
                Explains(cause, models, m, namingType, element, r.error, table.rows, earlierNames, Limits())
      ensures SelfContained(models[m], element) ==>
                AnsweredAlone(models[m], namingType, element, old(table.rows), maxGenAttempt, increments, r, stored)
    {
      hide NamedBy, Step, Consistent, FindByName, AllFilled, Usable, ValuesAlone, SelfContained,
           AnsweredAlone, Made, Named, Explains;
      var model, but := models[m], if recursive then None else Some(Relaxed(namingType));
      AloneHasRecipe(model, element);
      origin, cause := Nowhere, RecipeMissing;
      if model.recipe.None? {
        NoStep(table.rows, earlierNames, but);
        ExplainNoRecipe(models, m, namingType, element, table.rows, earlierNames, Limits());
        return Err(NoRecipe), [], origin, cause;
      }
      ghost var rows0, memo0 := table.rows, earlierNames;
      var filled;
      filled, stored, cause := FillIn(models, m, namingType, element, rank);
      ghost var rows1, memo1, before := table.rows, earlierNames, stored;
      StepRows(rows0, memo0, stored, rows1, memo1);
      assert Step(rows0, memo0, stored, rows1, memo1, but);
      if filled.Err? {
        return Err(filled.error), stored, origin, cause;
      }
      var data := NameFilled(table, model, namingType, filled.value, maxGenAttempt, increments);
      Alone(model, namingType, element, rows0, filled.value, before, rows1, data);
      if data.Err? {
        cause := AttemptsFail(filled.value);
        ExplainAttempts(models, m, namingType, element, filled.value, rows1, memo1, Limits(), data.error);
        return Err(data.error), stored, origin, cause;
      }
      origin := Origin(filled.value, memo1, data.value);
      var row, response := Keep(namingType, element, data.value);
      StepTrans(rows0, memo0, before, rows1, memo1, [row], table.rows, earlierNames, Some(Relaxed(namingType)));
      if recursive {
        StepOfNew(rows0, memo0, before + [row], table.rows, earlierNames, Relaxed(namingType));
      }
      MadeAfter(models, model, namingType, element, rows0, before, rows1, origin, response, earlierNames, Limits());
      stored := before + [row];
      r := Ok(response);
    }

    /** What the answer alone comes to, once the recipe is filled in. */
    lemma Alone(model: NamingModel, namingType: string, element: Element, rows: seq<Row>, values: Values,
                stored: seq<Row>, rows1: seq<Row>, data: Result<SeqGenData, Failure>)
      requires increments.Some? ==> |increments.value| > 0
      requires model.recipe.Some? && AllPresent(values, model.recipe.value) && rows1 == StoreAll(rows, stored)
      requires SelfContained(model, element) ==> values == ValuesAlone(model, element) && stored == []
      requires data == NamedBy(model, namingType, values, rows1, maxGenAttempt, increments)
      ensures SelfContained(model, element) ==>
                var key := ValueOf(element, EXTERNAL_KEY);
                if data.Err?
                then AnsweredAlone(model, namingType, element, rows, maxGenAttempt, increments, Err(data.error), stored)
                else AnsweredAlone(model, namingType, element, rows, maxGenAttempt, increments,
                                   Ok(Response(key, ValueOf(element, RESOURCE_NAME), data.value.name)),
                                   stored + [RowFor(namingType, key, data.value)])
    {
      hide NamedBy, ValuesAlone;
    }

    /** A step that changes what is remembered for a new type only changes nothing that was remembered before. */
    lemma StepOfNew(rows: seq<Row>, memo: Memo, stored: seq<Row>, rows': seq<Row>, memo': Memo, t: string)
      requires Step(rows, memo, stored, rows', memo', Some(t)) && t !in memo
      ensures Step(rows, memo, stored, rows', memo', None)
    {
    }

    /** A name is made when the row for it is stored last. */
    lemma MadeAfter(models: seq<NamingModel>, model: NamingModel, namingType: string, element: Element, rows: seq<Row>,
                    stored: seq<Row>, rows1: seq<Row>, o: Origin, response: Response, memo: Memo, setting: Setting)
      requires rows1 == StoreAll(rows, stored) && o.Origin?
      requires Composed(models, model, namingType, element, o, rows1, setting.maxGenAttempt, setting.increments)
      requires response == Response(ValueOf(element, EXTERNAL_KEY), ValueOf(element, RESOURCE_NAME), o.data.name)
      requires memo == o.memo[Relaxed(namingType) := response]
      ensures Made(models, model, namingType, element, o, rows,
                   stored + [RowFor(namingType, ValueOf(element, EXTERNAL_KEY), o.data)], response, memo, setting)
    {
      hide Composed, Relaxed;
      var all := stored + [RowFor(namingType, ValueOf(element, EXTERNAL_KEY), o.data)];
      assert all[..|all| - 1] == stored;
    }

    /** A free name is stored, in place of a released row of that name if there is one, and remembered. */
    method Keep(namingType: string, element: Element, data: SeqGenData) returns (ghost row: Row, response: Response)
      requires Ready() && FindByName(table.rows, namingType, data.name, false).NoRow?
      modifies this`earlierNames, table
      ensures Ready() && row == RowFor(namingType, ValueOf(element, EXTERNAL_KEY), data)
      ensures response == Response(ValueOf(element, EXTERNAL_KEY), ValueOf(element, RESOURCE_NAME), data.name)
      ensures Step(old(table.rows), old(earlierNames), [row], table.rows, earlierNames, Some(Relaxed(namingType)))
      ensures earlierNames == old(earlierNames)[Relaxed(namingType) := response]
              && Named(table.rows, namingType, data.name)
    {
      var record := RowFor(namingType, ValueOf(element, EXTERNAL_KEY), data);
      row := record;
      KeyMakesSingle(table.rows, record.elementType, record.name, true);
      response := Response(record.externalId, ValueOf(element, RESOURCE_NAME), record.name);
      StepStore(table.rows, earlierNames, record, response);
      var ok := table.StoreGeneratedName(record);
      earlierNames := earlierNames[Relaxed(namingType) := response];
    }

    /** The recipe names its sequence once, and so do the values filled in. */
    lemma AllSingle(models: seq<NamingModel>, m: nat, element: Element, values: Values, memo: Memo, rank: Rank)
      requires m < |models| && Usable(models, rank) && models[m].recipe.Some?
               && AllFilled(models, models[m], element, values, memo)
      ensures OneSequence(values, models[m].recipe.value)
    {
    }

    /** The values of the items of a recipe. */
    method FillIn(models: seq<NamingModel>, m: nat, ghost namingType: string, element: Element, ghost rank: Rank)
      returns (r: Result<Values, Failure>, ghost stored: seq<Row>, ghost cause: Cause)
      requires m < |models| && Usable(models, rank) && rank(m, element).Some? && Ready()
               && models[m].recipe.Some?
      modifies this`earlierNames, table
      decreases rank(m, element).value, 2
      ensures Ready()
      ensures Step(old(table.rows), old(earlierNames), stored, table.rows, earlierNames, None)
      ensures r.Ok? ==> AllPresent(r.value, models[m].recipe.value) && OneSequence(r.value, models[m].recipe.value)
      ensures r.Ok? ==> AllFilled(models, models[m], element, r.value, earlierNames)
      ensures r.Err? ==>
                Explains(cause, models, m, namingType, element, r.error, table.rows, earlierNames, Limits())
      ensures SelfContained(models[m], element) ==> r == Ok(ValuesAlone(models[m], element)) && stored == []
    {
      hide Step, Consistent, AllFilled, FilledWith, Usable, OwnValue, OneSequence, Explains, ExplainsItem, Unfilled;
      var recipe := models[m].recipe.value;
      var values: Values := map[];
      stored, cause := [], NoCause;
      NoStep(table.rows, earlierNames, None);
      NoneFilled(models, models[m], element, earlierNames);
      for i := 0 to |recipe|
        invariant Ready() && Step(old(table.rows), old(earlierNames), stored, table.rows, earlierNames, None)
        invariant AllFilled(models, models[m], element, values, earlierNames)
        invariant OthersUnfilled(models, models[m], element, values, i, earlierNames)
        invariant SelfContained(models[m], element) ==> values == OwnValues(models[m], element, i) && stored == []
      {
        var item := recipe[i];
        if item == "SEQUENCE" {
          var given := ValueOf(element, item);
          var v := if given.Some? then Text(given.value) else Sequence;
          SequenceFilled(models, models[m], element, v, earlierNames);
          FilledMore(models, models[m], element, values, item, v, earlierNames);
          OthersMore(models, models[m], element, values, i, earlierNames, values[item := v], earlierNames);
          values := values[item := v];
        } else {
          ghost var rows1, memo1 := table.rows, earlierNames;
          var val;
          ghost var more;
          ghost var inner;
          val, more, inner := GenerateNonSequenceValue(models, m, item, element, rank);
          StepTrans(old(table.rows), old(earlierNames), stored, rows1, memo1, more, table.rows, earlierNames, None);
          stored := stored + more;
          FilledAfter(models, models[m], element, values, rows1, memo1, more, table.rows, earlierNames);
          StepExtends(rows1, memo1, more, table.rows, earlierNames);
          if val.Err? {
            cause := Within(i, inner);
            ExplainWithin(models, m, namingType, element, i, inner, val.error, table.rows, earlierNames, Limits());
            return Err(val.error), stored, cause;
          }
          ghost var values0 := values;
          if val.value.Some? {
            FilledMore(models, models[m], element, values, item, Text(val.value.value), earlierNames);
            values := values[item := Text(val.value.value)];
          }
          OthersMore(models, models[m], element, values0, i, memo1, values, earlierNames);
        }
      }
      if i :| 0 <= i < |recipe| && recipe[i] !in values {
        NotAlone(models[m], element, values, i);
        cause := ItemMissing(i);
        ExplainMissing(models, m, namingType, element, i, table.rows, earlierNames, Limits());
        return Err(MissingItem), stored, cause;
      }
      AllSingle(models, m, element, values, earlierNames, rank);
      r := Ok(values);
    }

    /** An item's own value, or that of the recipe it refers to, finished by the property operations. */
    method GenerateNonSequenceValue(models: seq<NamingModel>, m: nat, item: string, element: Element,
                                    ghost rank: Rank)
      returns (r: Result<Option<string>, Failure>, ghost stored: seq<Row>, ghost cause: Cause)
      requires m < |models| && Usable(models, rank) && rank(m, element).Some? && Ready()
      requires models[m].recipe.Some? && item in models[m].recipe.value && item != "SEQUENCE"
      modifies this`earlierNames, table
      decreases rank(m, element).value, 1
      ensures Ready()
      ensures Step(old(table.rows), old(earlierNames), stored, table.rows, earlierNames, None)
      ensures r.Ok? && r.value.Some? ==>
                FilledWith(models, models[m], element, item, Text(r.value.value), earlierNames)
      ensures r.Ok? && r.value.None? ==> Unfilled(models, models[m], element, item, earlierNames)
      ensures r.Err? ==> OwnValue(models[m], element, item).None?
                         && ExplainsItem(cause, models, item, element, r.error, table.rows, earlierNames, Limits())
      ensures OwnValue(models[m], element, item).Some? ==>
                r == Ok(models[m].finish(OwnValue(models[m], element, item), item)) && stored == []
    {
      var val := ValueOf(models[m].property, item);
      if val.None? {
        val := ValueOf(element, item);
      }
      if val.None? {
        val := models[m].relaxed(element, item);
      }
      stored, cause := [], NoCause;
      if val.None? {
        var reached;
        reached, stored, cause := GenerateValueRecursively(models, m, item, element, rank);
        if reached.Err? {
          return Err(reached.error), stored, cause;
        }
        val := reached.value;
      }
      assert Reaches(models, models[m], element, item, val, earlierNames);
      r := Ok(models[m].finish(val, item));
    }

    /**
     The name of the recipe that an item refers to: the one remembered for its type, or else a new one, made by the
     model the item refers to for the element of its type.
     */
    method GenerateValueRecursively(models: seq<NamingModel>, m: nat, item: string, element: Element,
                                    ghost rank: Rank)
      returns (r: Result<Option<string>, Failure>, ghost stored: seq<Row>, ghost cause: Cause)
      requires m < |models| && Usable(models, rank) && rank(m, element).Some? && Ready()
      requires models[m].recipe.Some? && item in models[m].recipe.value && item != "SEQUENCE"
      requires OwnValue(models[m], element, item).None?
      modifies this`earlierNames, table
      decreases rank(m, element).value, 0
      ensures Ready()
      ensures Step(old(table.rows), old(earlierNames), stored, table.rows, earlierNames, None)
      ensures r.Ok? && r.value.Some? ==>
                Relaxed(item) in earlierNames && r.value.value == earlierNames[Relaxed(item)].value
      ensures Relaxed(item) in old(earlierNames) ==>
                r == Ok(Some(old(earlierNames)[Relaxed(item)].value)) && stored == []
      ensures Relaxed(item) !in old(earlierNames) && FindRelaxed(models, item) == |models| ==>
                r == Ok(None) && stored == []
      ensures r.Ok? && Relaxed(item) !in old(earlierNames) && FindRelaxed(models, item) < |models| ==>
                && Relaxed(item) in earlierNames
                && MadeFor(models, models[FindRelaxed(models, item)], element, old(table.rows), stored,
                           earlierNames[Relaxed(item)], earlierNames, Limits())
                && (r.value.None? <==> Placeholder(earlierNames[Relaxed(item)].value))
                && (r.value.Some? ==> r.value.value == earlierNames[Relaxed(item)].value)
      ensures r.Err? ==> ExplainsItem(cause, models, item, element, r.error, table.rows, earlierNames, Limits())
    {
      hide Explains, ExplainsItem, Relaxed, FindRelaxed, OwnValue, TypeOf, Usable, Made, MadeFor, ElementOf, Step,
           Consistent, AnsweredAlone, SelfContained;
      cause := NoCause;
      if Relaxed(item) in earlierNames {
        NoStep(table.rows, earlierNames, None);
        return Ok(Some(earlierNames[Relaxed(item)].value)), [], cause;
      }
      var k := NamingModelRelaxed(models, item);
      if k == |models| {
        NoStep(table.rows, earlierNames, None);
        return Ok(None), [], cause;
      }
      RankFalls(models, m, item, element, rank);
      var namingType := TypeOf(models[k]);
      if namingType.None? {
        NoStep(table.rows, earlierNames, None);
        ExplainItem(TypeMissing, models, item, element, NoNamingType, table.rows, earlierNames, Limits());
        return Err(NoNamingType), [], TypeMissing;
      }
      var relaxedElement := ElementFor(namingType.value, element);
      var gen;
      ghost var origin;
      ghost var rows := table.rows;
      gen, stored, origin, cause := GenerateNew(models, k, namingType.value, relaxedElement, rank, true);
      if gen.Err? {
        ExplainItem(cause, models, item, element, gen.error, table.rows, earlierNames, Limits());
        return Err(gen.error), stored, cause;
      }
      MadeByModel(models, models[k], element, rows, stored, gen.value, earlierNames, origin, Limits());
      r := Ok(Unplaced(gen.value.value));
    }

    lemma WellFoundedAt(policies: Policies, ranks: Ranks, element: Element, m: nat)
      requires WellFounded(policies, ranks, allElements) && element in allElements && Selects(element, policies, m)
      ensures var name := ValueOf(element, POLICY_NAME).value;
              name in ranks && Usable(policies[name], ranks[name]) && ranks[name](m, element).Some?
    {
      hide Acyclic, SingleSequences;
    }

    ghost function Now(): State
      reads this, table
    {
      State(table.rows, earlierNames, earlierNamingTypes)
    }

    /**
     The name of a request element: one generated on behalf of an earlier element, or else a new one. A name is handed
     out again only if no name was generated for an element of this very type before, and for such a type every element
     gets a new one.
     */
    method Generate(element: Element, policies: Policies, ghost ranks: Ranks)
      returns (r: Result<Response, Failure>, ghost stored: seq<Row>, ghost origin: Origin, ghost cause: Cause)
      requires Ready() && WellFounded(policies, ranks, allElements) && element in allElements
      modifies this, table
      ensures Ready() && Effect(old(table.rows), stored, table.rows)
      ensures r.Ok? ==> NameInUse(table.rows, r.value.value)
      ensures r.Ok? ==> Answers(element, policies, old(Now()), Turn(r.value, stored, origin), Now(), Limits())
      ensures r.Err? ==> Fails(element, policies, old(Now()), r.error, Fault(cause, stored, Now()), Limits())
      ensures ValueOf(element, "policy-instance-name").None? || ValueOf(element, "naming-type").None? ==>
                r.Err? && stored == [] && Now() == old(Now())
      ensures var t := ValueOf(element, NAMING_TYPE);
              ValueOf(element, POLICY_NAME).Some? && t.Some? && t.value !in old(earlierNamingTypes) ==>
                && (t.value in old(earlierNames) ==>
                      r == Ok(old(earlierNames)[t.value]) && stored == [] && Now() == old(Now()))
                && (t.value !in old(earlierNames) && Relaxed(t.value) in old(earlierNames) ==>
                      r == Ok(old(earlierNames)[Relaxed(t.value)]) && stored == [] && Now() == old(Now()))
      ensures var t := ValueOf(element, NAMING_TYPE);
              ValueOf(element, POLICY_NAME).Some? && t.Some?
              && (t.value in old(earlierNamingTypes)
                  || (t.value !in old(earlierNames) && Relaxed(t.value) !in old(earlierNames))) ==>
                && earlierNamingTypes == old(earlierNamingTypes) + [t.value]
                && (r.Ok? ==> origin.Origin?)
      ensures var t := ValueOf(element, NAMING_TYPE);
              t.None? || t.value in old(earlierNamingTypes)
              || (t.value !in old(earlierNames) && Relaxed(t.value) !in old(earlierNames)) ==>
                AnsweredIfAlone(element, policies, old(table.rows), maxGenAttempt, increments, r, stored)
    {
      hide AnsweredIfAlone, KeyUnique, Relaxed, WellFounded, FailsByPolicy, MadeByPolicy, Step, Effect;
      NoEffect(table.rows);
      NothingSelected(element, policies, table.rows, maxGenAttempt, increments);
      stored, origin, cause := [], Nowhere, NoCause;
      var policyName := ValueOf(element, POLICY_NAME);
      if policyName.None? {
        return Err(NoPolicy), stored, origin, cause;
      }
      var namingType := ValueOf(element, NAMING_TYPE);
      if namingType.None? {
        return Err(NoNamingType), stored, origin, cause;
      }
      if namingType.value !in earlierNamingTypes {
        var key := if namingType.value in earlierNames then namingType.value else Relaxed(namingType.value);
        if key in earlierNames {
          HeldInUse(table.rows, key, earlierNames[key].value);
          return Ok(earlierNames[key]), stored, origin, cause;
        }
      }
      earlierNamingTypes := earlierNamingTypes + [namingType.value];
      ghost var names := earlierNames;
      r, stored, origin, cause := GenerateByPolicy(element, policies, policyName.value, namingType.value, ranks);
      StepEffect(old(table.rows), names, stored, table.rows, earlierNames, Some(Relaxed(namingType.value)));
    }

    /** A new name, by the model that the policy has for the type. */
    method GenerateByPolicy(element: Element, policies: Policies, policyName: string, namingType: string,
                            ghost ranks: Ranks)
      returns (r: Result<Response, Failure>, ghost stored: seq<Row>, ghost origin: Origin, ghost cause: Cause)
      requires Ready() && WellFounded(policies, ranks, allElements) && element in allElements
      requires ValueOf(element, POLICY_NAME) == Some(policyName) && ValueOf(element, NAMING_TYPE) == Some(namingType)
      modifies this`earlierNames, table
      ensures Ready()
      ensures Step(old(table.rows), old(earlierNames), stored, table.rows, earlierNames, Some(Relaxed(namingType)))
      ensures r.Ok? ==> NameInUse(table.rows, r.value.value) && origin.Origin?
      ensures r.Ok? ==>
                MadeByPolicy(element, policies, old(table.rows), Turn(r.value, stored, origin), earlierNames, Limits())
      ensures r.Err? ==> FailsByPolicy(element, policies, r.error, Fault(cause, stored, Now()), Limits())
      ensures AnsweredIfAlone(element, policies, old(table.rows), maxGenAttempt, increments, r, stored)
    {
      hide Made, AnsweredAlone, SelfContained, Usable, KeyUnique, Relaxed, WellFounded, Explains, Step;
      stored, origin, cause := [], Nowhere, NoCause;
      if policyName !in policies {
        NoStep(table.rows, earlierNames, Some(Relaxed(namingType)));
        return Err(NoPolicy), stored, origin, cause;
      }
      var models := policies[policyName];
      var m := NamingModelOf(models, namingType);
      if m == |models| {
        NoStep(table.rows, earlierNames, Some(Relaxed(namingType)));
        return Err(NoModel), stored, origin, cause;
      }
      assert Selects(element, policies, m);
      WellFoundedAt(policies, ranks, element, m);
      r, stored, origin, cause := GenerateNew(models, m, namingType, element, ranks[policyName], false);
      if r.Ok? {
        NamedInUse(table.rows, namingType, r.value.value);
        assert MadeBy(element, policies, m, old(table.rows), Turn(r.value, stored, origin), earlierNames, Limits());
      } else {
        AloneStoresNothing(models[m], namingType, element, old(table.rows), maxGenAttempt, increments, r.error, stored);
        assert FailsBy(element, policies, m, r.error, Fault(cause, stored, Now()), Limits());
      }
    }
  }

  lemma NamedInUse(rows: seq<Row>, elementType: string, name: string)
    requires Named(rows, elementType, name)
    ensures NameInUse(rows, name)
  {
    var i :| 0 <= i < |rows| && rows[i].released != Yes && rows[i].elementType == elementType && rows[i].name == name;
    assert UsesName(rows, i, name);
  }

  /** An element without a policy or a type selects no model. */
  lemma NothingSelected(element: Element, policies: Policies, rows: seq<Row>, maxGenAttempt: int,
                        increments: Option<seq<int>>)
    requires increments.Some? ==> |increments.value| > 0
    ensures ValueOf(element, POLICY_NAME).None? || ValueOf(element, NAMING_TYPE).None? ==>
              forall r, stored :: AnsweredIfAlone(element, policies, rows, maxGenAttempt, increments, r, stored)
  {
    hide AnsweredAlone, SelfContained;
  }

  lemma AloneStoresNothing(model: NamingModel, namingType: string, element: Element, rows: seq<Row>,
                           maxGenAttempt: int, increments: Option<seq<int>>, e: Failure, stored: seq<Row>)
    requires increments.Some? ==> |increments.value| > 0
    requires SelfContained(model, element) ==>
               AnsweredAlone(model, namingType, element, rows, maxGenAttempt, increments, Err(e), stored)
    ensures SelfContained(model, element) ==> stored == []
  {
    hide NamedBy, SelfContained;
  }

  lemma StepEffect(rows: seq<Row>, memo: Memo, stored: seq<Row>, rows': seq<Row>, memo': Memo, but: Option<string>)
    requires Step(rows, memo, stored, rows', memo', but)
    ensures Effect(rows, stored, rows')
  {
  }

  // ---------------------------------------------------------------- a request, element by element

  /** What a request changes on its way: the table, the names remembered, and the types names were generated for. */
  datatype State = State(rows: seq<Row>, names: Memo, types: seq<string>)

  /** What one element comes to. */
  datatype Turn = Turn(response: Response, stored: seq<Row>, origin: Origin)

  /** A name remembered for the type of the element, or else for its relaxed form, and none generated for the type. */
  ghost predicate Recalled(element: Element, s: State, response: Response) {
    var t := ValueOf(element, NAMING_TYPE);
    && t.Some? && t.value !in s.types
    && var key := if t.value in s.names then t.value else Relaxed(t.value);
       key in s.names && s.names[key] == response
  }

  /** A name made by the model that the element's policy has for its type, which is on the list from then on. */
  ghost predicate Fresh(element: Element, policies: Policies, s: State, turn: Turn, s': State, setting: Setting) {
    var t := ValueOf(element, NAMING_TYPE);
    && t.Some? && s'.types == s.types + [t.value]
    && (t.value in s.types || (t.value !in s.names && Relaxed(t.value) !in s.names))
    && Step(s.rows, s.names, turn.stored, s'.rows, s'.names, Some(Relaxed(t.value)))
    && MadeByPolicy(element, policies, s.rows, turn, s'.names, setting)
  }

  ghost predicate MadeByPolicy(element: Element, policies: Policies, rows: seq<Row>, turn: Turn, memo: Memo,
                               setting: Setting) {
    exists m: nat :: Selects(element, policies, m) && MadeBy(element, policies, m, rows, turn, memo, setting)
  }

  ghost predicate MadeBy(element: Element, policies: Policies, m: nat, rows: seq<Row>, turn: Turn, memo: Memo,
                         setting: Setting)
    requires Selects(element, policies, m)
  {
    var models := policies[ValueOf(element, POLICY_NAME).value];
    Made(models, models[m], ValueOf(element, NAMING_TYPE).value, element, turn.origin, rows, turn.stored,
         turn.response, memo, setting)
  }

  /** The answer to an element: a name remembered, with nothing changed, or one made for it. */
  ghost predicate Answers(element: Element, policies: Policies, s: State, turn: Turn, s': State, setting: Setting) {
    match turn.origin
    case Nowhere => Recalled(element, s, turn.response) && turn.stored == [] && s' == s
    case Origin(_, _, _) => Fresh(element, policies, s, turn, s', setting)
  }

  /** How an element fails: the cause, the rows stored until then, and the state at that moment. */
  datatype Fault = Fault(cause: Cause, stored: seq<Row>, s: State)

  /**
   There is no answer to an element: it or its policy misses something, or a generation was begun and failed for the
   cause given. A recipe that refers to no other fails over the table as it was.
   */
  ghost predicate Fails(element: Element, policies: Policies, s: State, e: Failure, fault: Fault, setting: Setting) {
    var policyName, t := ValueOf(element, POLICY_NAME), ValueOf(element, NAMING_TYPE);
    if policyName.None? then e == NoPolicy && fault.stored == [] && fault.s == s
    else if t.None? then e == NoNamingType && fault.stored == [] && fault.s == s
    else
      && (t.value in s.types || (t.value !in s.names && Relaxed(t.value) !in s.names))
      && fault.s.types == s.types + [t.value]
      && Step(s.rows, s.names, fault.stored, fault.s.rows, fault.s.names, Some(Relaxed(t.value)))
      && FailsByPolicy(element, policies, e, fault, setting)
  }

  ghost predicate FailsByPolicy(element: Element, policies: Policies, e: Failure, fault: Fault, setting: Setting) {
    var policyName, t := ValueOf(element, POLICY_NAME), ValueOf(element, NAMING_TYPE);
    && policyName.Some? && t.Some?
    && if policyName.value !in policies then e == NoPolicy && fault.stored == []
       else
         || (e == NoModel && fault.stored == []
             && forall model :: model in policies[policyName.value] ==> model.namingType != t)
         || exists m: nat :: Selects(element, policies, m) && FailsBy(element, policies, m, e, fault, setting)
  }

  ghost predicate FailsBy(element: Element, policies: Policies, m: nat, e: Failure, fault: Fault, setting: Setting)
    requires Selects(element, policies, m)
  {
    var models, t := policies[ValueOf(element, POLICY_NAME).value], ValueOf(element, NAMING_TYPE).value;
    && Explains(fault.cause, models, m, t, element, e, fault.s.rows, fault.s.names, setting)
    && (SelfContained(models[m], element) ==> fault.stored == [])
  }

  /** The answers to the first elements of a request, one after the other. */
  ghost predicate Course(elements: seq<Element>, policies: Policies, turns: seq<Turn>, states: seq<State>,
                         setting: Setting) {
    && |turns| <= |elements| && |states| == |turns| + 1 && states[0].names == map[] && states[0].types == []
    && forall i :: 0 <= i < |turns| ==> Answers(elements[i], policies, states[i], turns[i], states[i + 1], setting)
  }

  lemma CourseMore(elements: seq<Element>, policies: Policies, turns: seq<Turn>, states: seq<State>,
                   setting: Setting, turn: Turn, s: State)
    requires Course(elements, policies, turns, states, setting) && |turns| < |elements|
    requires Answers(elements[|turns|], policies, states[|turns|], turn, s, setting)
    ensures Course(elements, policies, turns + [turn], states + [s], setting)
  {
    hide Answers;
  }

  /** From one element on to a later one no type leaves the list, and rows in use stay. */
  lemma {:induction false} CourseKeeps(elements: seq<Element>, policies: Policies, turns: seq<Turn>,
                                       states: seq<State>, setting: Setting, i: nat, j: nat)
    requires Course(elements, policies, turns, states, setting) && i <= j <= |turns|
    ensures (forall t :: t in states[i].types ==> t in states[j].types) && KeepsUsed(states[i].rows, states[j].rows)
    decreases j
  {
    hide Made, Relaxed;
    if i < j {
      CourseKeeps(elements, policies, turns, states, setting, i, j - 1);
      assert Answers(elements[j - 1], policies, states[j - 1], turns[j - 1], states[j], setting);
      if turns[j - 1].origin.Origin? {
        EffectKeeps(states[j - 1].rows, turns[j - 1].stored, states[j].rows);
      }
    }
  }

  /** A type whose name is remembered, and that none was generated for, stays so. */
  lemma {:induction false} CourseRecalls(elements: seq<Element>, policies: Policies, turns: seq<Turn>,
                                         states: seq<State>, setting: Setting, t: string, i: nat, j: nat)
    requires Course(elements, policies, turns, states, setting) && i <= j <= |turns|
    requires t !in states[i].types && (t in states[i].names || Relaxed(t) in states[i].names)
    ensures t !in states[j].types && (t in states[j].names || Relaxed(t) in states[j].names)
    decreases j
  {
    hide Made, Relaxed, Effect;
    if i < j {
      CourseRecalls(elements, policies, turns, states, setting, t, i, j - 1);
      assert Answers(elements[j - 1], policies, states[j - 1], turns[j - 1], states[j], setting);
    }
  }

  /** A row in use of this type and name that has this external id. */
  ghost predicate HasRow(rows: seq<Row>, elementType: string, externalId: Option<string>, name: string) {
    exists k :: 0 <= k < |rows| && rows[k].released != Yes && rows[k].elementType == elementType
                && rows[k].externalId == externalId && rows[k].name == name
  }

  /** The row stored last was free before, and is in the table. */
  lemma {:induction false} LastStored(rows: seq<Row>, stored: seq<Row>, rows': seq<Row>)
    requires Effect(rows, stored, rows') && |stored| > 0
    ensures var n := |stored| - 1;
            var before := StoreAll(rows, stored[..n]);
            Effect(rows, stored[..n], before) && Valid(before, stored[n]) && stored[n] in rows'
    decreases stored
  {
    EffectHead(rows, stored, rows');
    if |stored| == 1 {
      StoreKeepsUsed(rows, stored[0]);
    } else {
      var n := |stored| - 1;
      LastStored(Store(rows, stored[0]), stored[1..], rows');
      assert stored[1..][..n - 1] == stored[..n][1..];
      EffectHead(rows, stored[..n], StoreAll(rows, stored[..n]));
    }
  }

  /** A name generated for an element is in a row of its type with its external id, and handed out with that id. */
  lemma OwnRow(elements: seq<Element>, policies: Policies, turns: seq<Turn>, states: seq<State>, setting: Setting,
               i: nat)
    requires Course(elements, policies, turns, states, setting) && i < |turns| && turns[i].origin.Origin?
    ensures var t, key := ValueOf(elements[i], NAMING_TYPE), ValueOf(elements[i], EXTERNAL_KEY);
            && t.Some? && turns[i].response.externalKey == key
            && turns[i].response.resourceName == ValueOf(elements[i], RESOURCE_NAME)
            && HasRow(states[i + 1].rows, t.value, key, turns[i].response.value)
            && HasRow(states[|turns|].rows, t.value, key, turns[i].response.value)
  {
    hide Composed, Relaxed, Extends;
    assert Answers(elements[i], policies, states[i], turns[i], states[i + 1], setting);
    var stored := turns[i].stored;
    LastStored(states[i].rows, stored, states[i + 1].rows);
    CourseKeeps(elements, policies, turns, states, setting, i + 1, |turns|);
    var k :| 0 <= k < |states[i + 1].rows| && states[i + 1].rows[k] == stored[|stored| - 1];
    assert states[|turns|].rows[k] == states[i + 1].rows[k];
  }

  /** A name generated for a type is none that a row in use of the type bears. */
  lemma NewName(elements: seq<Element>, policies: Policies, turns: seq<Turn>, states: seq<State>, setting: Setting,
                j: nat, k: nat)
    requires Course(elements, policies, turns, states, setting) && j < |turns| && turns[j].origin.Origin?
    requires k < |states[j].rows| && states[j].rows[k].released != Yes
    requires Some(states[j].rows[k].elementType) == ValueOf(elements[j], NAMING_TYPE)
    ensures states[j].rows[k].name != turns[j].response.value
  {
    hide Composed, Relaxed, Extends;
    assert Answers(elements[j], policies, states[j], turns[j], states[j + 1], setting);
    var stored, n := turns[j].stored, |turns[j].stored| - 1;
    LastStored(states[j].rows, stored, states[j + 1].rows);
    var before := StoreAll(states[j].rows, stored[..n]);
    EffectKeeps(states[j].rows, stored[..n], before);
    assert before[k] == states[j].rows[k] && !Names(before[k], stored[n].elementType, stored[n].name, false);
  }

  /**
   The first element of a type decides for all its elements: either each of them gets a name generated for it, different
   from those of the other ones, or all are answered with names remembered.
   */
  lemma SameTypeApart(elements: seq<Element>, policies: Policies, turns: seq<Turn>, states: seq<State>,
                      setting: Setting, i: nat, j: nat)
    requires Course(elements, policies, turns, states, setting) && i < j < |turns|
    requires ValueOf(elements[i], NAMING_TYPE) == ValueOf(elements[j], NAMING_TYPE)
    ensures turns[i].origin.Origin? <==> turns[j].origin.Origin?
    ensures turns[i].origin.Origin? ==> turns[i].response.value != turns[j].response.value
  {
    hide Made, Relaxed, Effect, Extends;
    assert Answers(elements[i], policies, states[i], turns[i], states[i + 1], setting);
    assert Answers(elements[j], policies, states[j], turns[j], states[j + 1], setting);
    var t := ValueOf(elements[i], NAMING_TYPE).value;
    CourseKeeps(elements, policies, turns, states, setting, i + 1, j);
    if turns[i].origin.Nowhere? {
      CourseRecalls(elements, policies, turns, states, setting, t, i, j);
    } else {
      assert t in states[i + 1].types;
      OwnRow(elements, policies, turns, states, setting, i);
      var k :| 0 <= k < |states[i + 1].rows| && states[i + 1].rows[k].released != Yes
               && states[i + 1].rows[k].elementType == t && states[i + 1].rows[k].name == turns[i].response.value;
      assert states[j].rows[k] == states[i + 1].rows[k];
      NewName(elements, policies, turns, states, setting, j, k);
    }
  }

  const POLICY_NAME := "policy-instance-name"

  type Policies = map<string, seq<NamingModel>>

  type Ranks = map<string, Rank>

  /** From no element of the request do the recipes run in circles. */
  ghost predicate WellFounded(policies: Policies, ranks: Ranks, all: seq<Element>) {
    && (forall name :: name in policies ==>
          name in ranks && Acyclic(policies[name], ranks[name], all) && SingleSequences(policies[name]))
    && (forall e: Element, m: nat :: e in all && Selects(e, policies, m) ==>
          ranks[ValueOf(e, POLICY_NAME).value](m, e).Some?)
  }

  ghost predicate UsesName(rows: seq<Row>, i: nat, name: string) {
    i < |rows| && rows[i].released != Yes && rows[i].name == name
  }

  ghost predicate NameInUse(rows: seq<Row>, name: string) {
    exists i: nat :: UsesName(rows, i, name)
  }

  lemma HeldInUse(rows: seq<Row>, relaxed: string, name: string)
    requires Held(rows, relaxed, name)
    ensures NameInUse(rows, name)
  {
    var i: nat :| Holds(rows, i, relaxed, name);
    assert UsesName(rows, i, name);
  }

  lemma InUseKept(rows: seq<Row>, rows': seq<Row>, name: string)
    requires KeepsUsed(rows, rows') && NameInUse(rows, name)
    ensures NameInUse(rows', name)
  {
    var i: nat :| UsesName(rows, i, name);
    assert UsesName(rows', i, name);
  }

  lemma NoEffect(rows: seq<Row>)
    ensures Effect(rows, [], rows) && (KeyUnique(rows) ==> Consistent(rows, map[]))
  {
  }

  /** Every name handed out is in use. */
  ghost predicate AllInUse(rows: seq<Row>, responses: seq<Response>) {
    forall k :: 0 <= k < |responses| ==> NameInUse(rows, responses[k].value)
  }

  lemma NoneInUse(rows: seq<Row>)
    ensures AllInUse(rows, [])
  {
  }

  /** One more element of a request: its rows are stored after the others, and the names before stay in use. */
  lemma OneMore(before: seq<Row>, stored: seq<Row>, rows: seq<Row>, more: seq<Row>, rows': seq<Row>,
                responses: seq<Response>, one: Result<Response, Failure>)
    requires Effect(before, stored, rows) && Effect(rows, more, rows') && AllInUse(rows, responses)
    requires one.Ok? ==> NameInUse(rows', one.value.value)
    ensures Effect(before, stored + more, rows') && (stored == [] ==> stored + more == more)
    ensures one.Ok? ==> AllInUse(rows', responses + [one.value])
  {
    hide Effect, NameInUse, KeepsUsed;
    EffectConcat(before, stored, rows, more, rows');
    EffectKeeps(rows, more, rows');
    forall k | 0 <= k < |responses| ensures NameInUse(rows', responses[k].value) {
      InUseKept(rows, rows', responses[k].value);
    }
  }

  /** The answer for the first element. */
  function First(r: Result<seq<Response>, Failure>): Result<Response, Failure>
    requires r.Ok? ==> |r.value| > 0
  {
    if r.Err? then Err(r.error) else Ok(r.value[0])
  }

  /** Every answer in the course is the one handed out. */
  ghost predicate HandedOut(turns: seq<Turn>, responses: seq<Response>) {
    |turns| == |responses| && forall i :: 0 <= i < |turns| ==> turns[i].response == responses[i]
  }

  /** Two elements have the same naming type. */
  ghost predicate SameType(a: Element, b: Element) {
    ValueOf(a, NAMING_TYPE) == ValueOf(b, NAMING_TYPE)
  }

  /** What the course of a request means for the names handed out. */
  lemma CourseNames(elements: seq<Element>, policies: Policies, turns: seq<Turn>, states: seq<State>,
                    setting: Setting, responses: seq<Response>)
    requires Course(elements, policies, turns, states, setting) && HandedOut(turns, responses)
             && |turns| == |elements|
    ensures forall i, j :: 0 <= i < j < |turns| && SameType(elements[i], elements[j]) && turns[i].origin.Origin? ==>
              turns[j].origin.Origin? && responses[i].value != responses[j].value
    ensures |states| == |turns| + 1
            && forall i :: 0 <= i < |turns| && turns[i].origin.Origin? ==>
                 OwnAnswer(elements[i], responses[i], states[|turns|].rows)
    ensures forall i :: 0 <= i < |turns| && SameType(elements[0], elements[i]) ==> turns[i].origin.Origin?
  {
    hide Course, HasRow;
    CourseShape(elements, policies, turns, states, setting);
    forall i, j | 0 <= i < j < |turns| && SameType(elements[i], elements[j]) && turns[i].origin.Origin?
      ensures turns[j].origin.Origin? && responses[i].value != responses[j].value
    {
      SameTypeApart(elements, policies, turns, states, setting, i, j);
    }
    forall i | 0 <= i < |turns| && turns[i].origin.Origin?
      ensures OwnAnswer(elements[i], responses[i], states[|turns|].rows)
    {
      OwnRow(elements, policies, turns, states, setting, i);
    }
    forall i | 0 <= i < |turns| && SameType(elements[0], elements[i]) ensures turns[i].origin.Origin? {
      FirstIsNew(elements, policies, turns, states, setting);
      if i > 0 {
        SameTypeApart(elements, policies, turns, states, setting, 0, i);
      }
    }
  }

  lemma CourseShape(elements: seq<Element>, policies: Policies, turns: seq<Turn>, states: seq<State>, setting: Setting)
    requires Course(elements, policies, turns, states, setting)
    ensures |states| == |turns| + 1 && |turns| <= |elements|
  {
    hide Answers;
  }

  lemma FirstIsNew(elements: seq<Element>, policies: Policies, turns: seq<Turn>, states: seq<State>, setting: Setting)
    requires Course(elements, policies, turns, states, setting) && |turns| > 0
    ensures turns[0].origin.Origin?
  {
    hide Fresh;
    assert Answers(elements[0], policies, states[0], turns[0], states[1], setting);
  }

  /** An element is answered with its own key and resource name, and its name is in a row of its type with that key. */
  ghost predicate OwnAnswer(element: Element, response: Response, rows: seq<Row>) {
    var t := ValueOf(element, NAMING_TYPE);
    && t.Some? && response.externalKey == ValueOf(element, EXTERNAL_KEY)
    && response.resourceName == ValueOf(element, RESOURCE_NAME)
    && HasRow(rows, t.value, ValueOf(element, EXTERNAL_KEY), response.value)
  }

  /**
   One request (`SpringServiceImpl.genNetworkElementName`): all its names or none. The key stays unique, rows in use
   stay as they are, and every name handed out is in use when the request ends. The elements are answered in order, each
   with a name of its own or one remembered; once a name was generated for a type, every later element of the type gets
   a name of its own, different from the earlier ones, in a row with its own external key.
   */
  method GenNetworkElementNames(table: Table, elements: seq<Element>, policies: Policies, ghost ranks: Ranks,
                                maxGenAttempt: int, increments: Option<seq<int>>)
    returns (r: Result<seq<Response>, Failure>, ghost stored: seq<Row>, ghost turns: seq<Turn>,
             ghost states: seq<State>, ghost fault: Fault)
    requires KeyUnique(table.rows) && WellFounded(policies, ranks, elements)
             && (increments.Some? ==> |increments.value| > 0)
    modifies table
    ensures Effect(old(table.rows), stored, table.rows)
    ensures KeyUnique(table.rows) && KeepsUsed(old(table.rows), table.rows)
    ensures Course(elements, policies, turns, states, Setting(elements, maxGenAttempt, increments))
            && states[0].rows == old(table.rows)
    ensures r.Err? ==> table.rows == old(table.rows) && |turns| < |elements|
    ensures r.Err? ==> Fails(elements[|turns|], policies, states[|turns|], r.error, fault,
                             Setting(elements, maxGenAttempt, increments))
    ensures r.Ok? ==> |r.value| == |elements| && AllInUse(table.rows, r.value)
    ensures r.Ok? ==> HandedOut(turns, r.value) && states[|turns|].rows == table.rows
    ensures r.Ok? ==>
              forall i, j ::
                0 <= i < j < |elements| && SameType(elements[i], elements[j]) && turns[i].origin.Origin? ==>
                  turns[j].origin.Origin? && r.value[i].value != r.value[j].value
    ensures r.Ok? ==>
              forall i :: 0 <= i < |elements| && turns[i].origin.Origin? ==>
                OwnAnswer(elements[i], r.value[i], table.rows)
    ensures r.Ok? ==>
              forall i :: 0 <= i < |elements| && SameType(elements[0], elements[i]) ==> turns[i].origin.Origin?
    ensures |elements| == 1 ==>
              AnsweredIfAlone(elements[0], policies, old(table.rows), maxGenAttempt, increments, First(r), stored)
  {
    hide WellFounded, Effect, KeyUnique, AnsweredIfAlone, AllInUse, NameInUse, KeepsUsed, Consistent, Course, Answers,
         Fails, SameType, OwnAnswer;
    var before := table.rows;
    NoEffect(before);
    EffectKeeps(before, [], before);
    NoneInUse(before);
    var session := new Session(table, elements, maxGenAttempt, increments);
    var responses: seq<Response> := [];
    ghost var setting := session.Limits();
    stored, turns, states, fault := [], [], [session.Now()], Fault(NoCause, [], session.Now());
    NoCourse(elements, policies, session.Now(), setting);
    for i := 0 to |elements|
      invariant session.table == table && session.Ready() && fresh(session) && session.Limits() == setting
      invariant Effect(before, stored, table.rows)
      invariant |responses| == i && AllInUse(table.rows, responses)
      invariant i == 0 ==> session.earlierNames == map[] && session.earlierNamingTypes == []
      invariant i == 0 ==> stored == [] && table.rows == before
      invariant Course(elements, policies, turns, states, setting) && HandedOut(turns, responses)
      invariant |states| == i + 1 && states[0].rows == before && states[i] == session.Now()
      invariant i == 1 ==>
                  AnsweredIfAlone(elements[0], policies, before, maxGenAttempt, increments, Ok(responses[0]), stored)
    {
      ghost var rows1 := table.rows;
      var one;
      ghost var more;
      ghost var origin;
      ghost var cause;
      one, more, origin, cause := session.Generate(elements[i], policies, ranks);
      OneMore(before, stored, rows1, more, table.rows, responses, one);
      stored := stored + more;
      if one.Err? {
        fault := Fault(cause, more, session.Now());
        table.rows := before;
        if i == 0 {
          ErrStoresNothing(elements[0], policies, before, maxGenAttempt, increments, one.error, more);
        }
        stored := [];
        return Err(one.error), stored, turns, states, fault;
      }
      ghost var turn := Turn(one.value, more, origin);
      CourseMore(elements, policies, turns, states, setting, turn, session.Now());
      turns, states := turns + [turn], states + [session.Now()];
      responses := responses + [one.value];
    }
    EffectKeeps(before, stored, table.rows);
    CourseNames(elements, policies, turns, states, setting, responses);
    r := Ok(responses);
  }

  lemma NoCourse(elements: seq<Element>, policies: Policies, s: State, setting: Setting)
    requires s.names == map[] && s.types == []
    ensures Course(elements, policies, [], [s], setting) && HandedOut([], [])
  {
  }

  /** A row in use has this very type and name. */
  ghost predicate Named(rows: seq<Row>, elementType: string, name: string) {
    exists i :: 0 <= i < |rows| && rows[i].released != Yes && rows[i].elementType == elementType && rows[i].name == name
  }
}
