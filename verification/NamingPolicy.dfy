/** Reading a naming policy (`PolicyReader`): strict and relaxed look-ups of naming types. */
module NamingPolicy {
  import opened Wrappers
  import opened SequenceFormat

  const NAMING_TYPE := "naming-type"
  const EXTERNAL_KEY := "external-key"
  const RESOURCE_NAME := "resource-name"

  type Element = map<string, string>

  /** The `increment-sequence` entry of a policy. */
  datatype SequenceDef = SequenceDef(start: int, increment: int, length: int, max: Option<string>, kind: SequenceType,
                                     scope: Option<string>)

  /**
   One naming model: with `property` for the value the policy gives an item, and with parameters for what is not spelled
   out here, `relaxed` for the look-up of an item in the request that ignores case and dashes, `finish` for the property
   operations and the fallback to the model's own entries, and `operate` for the name operation.
   */
  datatype NamingModel = NamingModel(namingType: Option<string>, recipe: Option<seq<string>>, sequence: SequenceDef,
                                     property: map<string, string>,
                                     relaxed: (Element, string) -> Option<string>,
                                     finish: (Option<string>, string) -> Option<string>,
                                     operate: string -> string)

  /** A value that is still a placeholder, `${...}` followed by anything on the same line. */
  predicate Placeholder(s: string) {
    |s| >= 3 && s[..2] == "${" && '}' in s[2..] && forall i :: 0 <= i < |s| ==> s[i] !in "\n\r\U{85}\U{2028}\U{2029}"
  }

  /** In other words: what the pattern of a dollar sign, a brace, any text, a brace and any text matches. */
  lemma PlaceholderIff(s: string)
    ensures Placeholder(s) <==>
            && (exists a: string, b: string :: s == "${" + a + "}" + b)
            && '\n' !in s && '\r' !in s && '\U{85}' !in s && '\U{2028}' !in s && '\U{2029}' !in s
  {
    if Placeholder(s) {
      var i :| 0 <= i < |s[2..]| && s[2..][i] == '}';
      assert s == "${" + s[2..][..i] + "}" + s[2..][i + 1..];
    }
    if a: string, b: string :| s == "${" + a + "}" + b {
      assert s[..2] == "${" && s[2..][|a|] == '}';
    }
  }

  /** `PolicyReader.value` */
  function ValueOf(element: Element, key: string): Option<string> {
    if key in element && !Placeholder(element[key]) then Some(element[key]) else None
  }

  /** The value an item has by itself: that of the policy, that of the request, or that of a similar key there. */
  function OwnValue(model: NamingModel, element: Element, item: string): Option<string> {
    if ValueOf(model.property, item).Some? then ValueOf(model.property, item)
    else if ValueOf(element, item).Some? then ValueOf(element, item)
    else model.relaxed(element, item)
  }

  /** The policy's value comes first, then that of the request under this very key, then that under a similar one. */
  lemma OwnValueOrder(model: NamingModel, element: Element, item: string)
    ensures item in model.property && !Placeholder(model.property[item]) ==>
              OwnValue(model, element, item) == Some(model.property[item])
    ensures item !in model.property && item in element && !Placeholder(element[item]) ==>
              OwnValue(model, element, item) == Some(element[item])
    ensures item !in model.property && item !in element ==>
              OwnValue(model, element, item) == model.relaxed(element, item)
    ensures item in model.property && Placeholder(model.property[item]) ==>
              OwnValue(model, element, item) == OwnValue(model.(property := model.property - {item}), element, item)
    ensures item in element && Placeholder(element[item]) && item !in model.property ==>
              OwnValue(model, element, item) == model.relaxed(element, item)
  {
    hide Placeholder;
  }

  function TypeOf(model: NamingModel): Option<string> {
    if model.namingType.Some? && !Placeholder(model.namingType.value) then model.namingType else None
  }

  /** A model has a type unless that is missing or a placeholder. */
  lemma TypeOfIs(model: NamingModel)
    ensures match model.namingType
            case None => TypeOf(model) == None
            case Some(t) => TypeOf(model) == if Placeholder(t) then None else Some(t)
  {
    hide Placeholder;
  }

  // ---------------------------------------------------------------- relaxed naming types

  function UpperChar(c: char): char {
    if 'a' <= c <= 'z' then c - 32 as char else c
  }

  function Upper(s: string): (r: string)
    ensures |r| == |s|
  {
    seq(|s|, i requires 0 <= i < |s| => UpperChar(s[i]))
  }

  function Undashed(s: string): (r: string)
    ensures |r| <= |s|
  {
    if |s| == 0 then "" else (if s[0] == '-' || s[0] == '_' then "" else [s[0]]) + Undashed(s[1..])
  }

  predicate EndsInName(s: string) {
    |s| >= 4 && s[|s| - 4..] == "NAME"
  }

  lemma EndsInNameIff(s: string)
    ensures EndsInName(s) <==> exists front: string :: s == front + "NAME"
  {
    if EndsInName(s) {
      assert s == s[..|s| - 4] + "NAME";
    }
  }

  /** Upper case, no trailing NAME, no dashes and underscores, in this order. */
  function Relaxed(s: string): string {
    var u := Upper(s);
    Undashed(if EndsInName(u) then u[..|u| - 4] else u)
  }

  predicate SameIgnoringCase(a: string, b: string) {
    Upper(a) == Upper(b)
  }

  lemma {:induction false} UndashedUpper(s: string)
    requires forall i :: 0 <= i < |s| ==> UpperChar(s[i]) == s[i]
    ensures Upper(Undashed(s)) == Undashed(s)
  {
    if |s| > 0 {
      UndashedUpper(s[1..]);
    }
  }

  /** No small letter is left, and only small letters are replaced. */
  lemma UpperLetters(s: string, i: nat)
    requires i < |s|
    ensures !('a' <= Upper(s)[i] <= 'z')
    ensures if 'a' <= s[i] <= 'z' then Upper(s)[i] as int == s[i] as int - 32 else Upper(s)[i] == s[i]
  {
  }

  /** Relaxed types are in upper case, so comparing them ignoring case is comparing them. */
  lemma RelaxedIsUpper(s: string)
    ensures Upper(Relaxed(s)) == Relaxed(s)
  {
    var u := Upper(s);
    UndashedUpper(if EndsInName(u) then u[..|u| - 4] else u);
  }

  /** What stays of a type: its other characters, in order, none of them a dash or an underscore. */
  lemma {:induction false} UndashedConcat(a: string, b: string)
    ensures Undashed(a + b) == Undashed(a) + Undashed(b)
  {
    if |a| == 0 {
      assert a + b == b;
    } else {
      assert (a + b)[1..] == a[1..] + b;
      UndashedConcat(a[1..], b);
    }
  }

  lemma {:induction false} UndashedPlain(s: string)
    ensures '-' !in Undashed(s) && '_' !in Undashed(s)
    ensures '-' !in s && '_' !in s ==> Undashed(s) == s
  {
    if |s| > 0 {
      UndashedPlain(s[1..]);
      assert s == [s[0]] + s[1..];
    }
  }

  /** A relaxed type has no dash and no underscore. */
  lemma RelaxedPlain(s: string)
    ensures '-' !in Relaxed(s) && '_' !in Relaxed(s)
  {
    var u := Upper(s);
    UndashedPlain(if EndsInName(u) then u[..|u| - 4] else u);
  }

  lemma UpperConcat(a: string, b: string)
    ensures Upper(a + b) == Upper(a) + Upper(b)
  {
  }

  lemma UndashedDash(a: string, dash: char, b: string)
    requires dash == '-' || dash == '_'
    ensures Undashed(a + [dash] + b) == Undashed(a + b)
  {
    UndashedConcat(a + [dash], b);
    UndashedConcat(a, [dash]);
    UndashedConcat(a, b);
    assert [dash][1..] == [] && Undashed([dash]) == [];
    assert Undashed(a) + [] == Undashed(a);
  }

  /** Case does not matter, nor do dashes and underscores, where no NAME at the end is taken away. */
  lemma RelaxedAlike(s: string, dash: char, t: string)
    requires dash == '-' || dash == '_'
    requires !EndsInName(Upper(s + t)) && !EndsInName(Upper(s + [dash] + t))
    ensures Relaxed(s + [dash] + t) == Relaxed(Upper(s) + Upper(t)) == Relaxed(s + t)
  {
    hide Undashed, EndsInName;
    UpperConcat(s + [dash], t);
    UpperConcat(s, [dash]);
    UpperConcat(s, t);
    assert Upper([dash]) == [dash];
    assert Upper(Upper(s) + Upper(t)) == Upper(s) + Upper(t);
    UndashedDash(Upper(s), dash, Upper(t));
  }

  /** One NAME at the end, in whatever case, is taken away first. */
  lemma RelaxedEnding(s: string, ending: string)
    requires Upper(ending) == "NAME" && !EndsInName(Upper(s))
    ensures Relaxed(s + ending) == Relaxed(s)
  {
    hide Undashed;
    UpperConcat(s, ending);
    assert (Upper(s) + "NAME")[..|s|] == Upper(s) && (Upper(s) + "NAME")[|s|..] == "NAME";
  }

  /** Without any of these a relaxed type is the type in upper case. */
  lemma RelaxedKeeps(s: string)
    requires !EndsInName(Upper(s)) && '-' !in s && '_' !in s
    ensures Relaxed(s) == Upper(s)
  {
    UndashedPlain(Upper(s));
  }

  lemma {:induction false} UndashedTwice(s: string)
    ensures Undashed(Undashed(s)) == Undashed(s)
  {
    if |s| > 0 {
      UndashedTwice(s[1..]);
      if s[0] != '-' && s[0] != '_' {
        assert Undashed(s) == [s[0]] + Undashed(s[1..]) && Undashed(s)[1..] == Undashed(s[1..]);
      } else {
        assert Undashed(s) == [] + Undashed(s[1..]) == Undashed(s[1..]);
      }
    }
  }

  /**
   Relaxing twice is relaxing once exactly for the types that do not end in NAME when one ending and then the dashes and
   underscores are gone. It is not for NAME_NAME and for NA-ME, whose second ending is found the second time only.
   */
  lemma RelaxedTwiceIff(s: string)
    ensures Relaxed(Relaxed(s)) == Relaxed(s) <==> !EndsInName(Relaxed(s))
  {
    var u, r := Upper(s), Relaxed(s);
    RelaxedIsUpper(s);
    UndashedTwice(if EndsInName(u) then u[..|u| - 4] else u);
    if EndsInName(r) {
      assert |Relaxed(r)| <= |r[..|r| - 4]| < |r|;
    }
  }

  // ---------------------------------------------------------------- look-ups

  /** The first model from `from` on whose type equals `namingType`, up to case. */
  function FirstIgnoringCase(models: seq<NamingModel>, namingType: string, from: nat): (r: nat)
    requires from <= |models|
    ensures from <= r <= |models|
    ensures r < |models| ==> models[r].namingType.Some? && SameIgnoringCase(namingType, models[r].namingType.value)
    ensures forall j :: from <= j < r && models[j].namingType.Some? ==>
              !SameIgnoringCase(namingType, models[j].namingType.value)
    decreases |models| - from
  {
    if from == |models| then from
    else if models[from].namingType.Some? && SameIgnoringCase(namingType, models[from].namingType.value) then from
    else FirstIgnoringCase(models, namingType, from + 1)
  }

  /** The first model from `from` on with the relaxed type `relaxed`. */
  function FirstRelaxed(models: seq<NamingModel>, relaxed: string, from: nat): (r: nat)
    requires from <= |models|
    ensures from <= r <= |models|
    ensures r < |models| ==>
              models[r].namingType.Some? && SameIgnoringCase(relaxed, Relaxed(models[r].namingType.value))
    ensures forall j :: from <= j < r && models[j].namingType.Some? ==>
              !SameIgnoringCase(relaxed, Relaxed(models[j].namingType.value))
    decreases |models| - from
  {
    if from == |models| then from
    else if models[from].namingType.Some? && SameIgnoringCase(relaxed, Relaxed(models[from].namingType.value)) then from
    else FirstRelaxed(models, relaxed, from + 1)
  }

  /** The model an item refers to: by its type up to case, or else by its relaxed type; |models| when there is none. */
  function FindRelaxed(models: seq<NamingModel>, item: string): (r: nat)
    ensures r <= |models|
  {
    var k := FirstIgnoringCase(models, item, 0);
    if k < |models| then k else FirstRelaxed(models, Relaxed(item), 0)
  }

  /** The model found for an item has the item's own relaxed type, the key under which its name is remembered. */
  lemma FoundTypeMatches(models: seq<NamingModel>, item: string)
    requires FindRelaxed(models, item) < |models|
    ensures models[FindRelaxed(models, item)].namingType.Some?
    ensures Relaxed(models[FindRelaxed(models, item)].namingType.value) == Relaxed(item)
  {
    RelaxedIsUpper(item);
    RelaxedIsUpper(models[FindRelaxed(models, item)].namingType.value);
  }

  /**
   Which model an item finds: the first whose type is the item up to case, wherever it stands, or if there is none the
   first with the same relaxed type; no model only if there is none of either kind.
   */
  lemma FoundFirst(models: seq<NamingModel>, item: string)
    ensures var k := FindRelaxed(models, item);
            && (k == |models| ==> forall j :: 0 <= j < k && models[j].namingType.Some? ==>
                  Relaxed(models[j].namingType.value) != Relaxed(item))
            && (k < |models| ==> forall j :: 0 <= j < k && models[j].namingType.Some? ==>
                  Upper(models[j].namingType.value) != Upper(item))
            && (k < |models| && Upper(models[k].namingType.value) != Upper(item) ==>
                  forall j :: 0 <= j < |models| && models[j].namingType.Some? ==>
                    && Upper(models[j].namingType.value) != Upper(item)
                    && (j < k ==> Relaxed(models[j].namingType.value) != Relaxed(item)))
  {
    hide Upper, Relaxed;
    FoundSome(models, item);
    RelaxedIsUpper(item);
    forall j | 0 <= j < |models| && models[j].namingType.Some?
      ensures SameIgnoringCase(Relaxed(item), Relaxed(models[j].namingType.value)) <==>
              Relaxed(item) == Relaxed(models[j].namingType.value)
    {
      RelaxedIsUpper(models[j].namingType.value);
    }
  }

  lemma FoundSome(models: seq<NamingModel>, item: string)
    ensures FindRelaxed(models, item) < |models| ==> models[FindRelaxed(models, item)].namingType.Some?
  {
  }

  method NamingModelRelaxed(models: seq<NamingModel>, item: string) returns (theModel: nat)
    ensures theModel == FindRelaxed(models, item)
  {
    var i := 0;
    while i < |models|
      invariant 0 <= i <= |models| && FirstIgnoringCase(models, item, 0) == FirstIgnoringCase(models, item, i)
    {
      if models[i].namingType.Some? && SameIgnoringCase(item, models[i].namingType.value) {
        return i;
      }
      i := i + 1;
    }
    var relaxed := Relaxed(item);
    i := 0;
    while i < |models|
      invariant 0 <= i <= |models| && FirstRelaxed(models, relaxed, 0) == FirstRelaxed(models, relaxed, i)
    {
      if models[i].namingType.Some? && SameIgnoringCase(relaxed, Relaxed(models[i].namingType.value)) {
        return i;
      }
      i := i + 1;
    }
    theModel := |models|;
  }

  /** `PolicyReader.namingModel`: the first model of exactly this type, |models| when there is none. */
  method NamingModelOf(models: seq<NamingModel>, namingType: string) returns (theModel: nat)
    ensures theModel <= |models| && forall j :: 0 <= j < theModel ==> models[j].namingType != Some(namingType)
    ensures theModel < |models| ==> models[theModel].namingType == Some(namingType)
  {
    theModel := 0;
    while theModel < |models| && models[theModel].namingType != Some(namingType)
      invariant theModel <= |models| && forall j :: 0 <= j < theModel ==> models[j].namingType != Some(namingType)
    {
      theModel := theModel + 1;
    }
  }

  /** The first element of a request from `from` on that has this naming type. */
  function FirstOf(all: seq<Element>, namingType: string, from: nat): (i: nat)
    requires from <= |all|
    ensures from <= i <= |all|
    ensures forall j :: from <= j < i ==> ValueOf(all[j], NAMING_TYPE) != Some(namingType)
    ensures i < |all| ==> ValueOf(all[i], NAMING_TYPE) == Some(namingType)
    decreases |all| - from
  {
    if from == |all| || ValueOf(all[from], NAMING_TYPE) == Some(namingType) then from
    else FirstOf(all, namingType, from + 1)
  }

  /** The element a recursive call works with: the first of the type, or the current one without its key and name. */
  function ElementOf(all: seq<Element>, namingType: string, current: Element): Element {
    var i := FirstOf(all, namingType, 0);
    if i < |all| then all[i][NAMING_TYPE := namingType]
    else current[NAMING_TYPE := namingType] - {EXTERNAL_KEY, RESOURCE_NAME}
  }

  /**
   The element for a type: with the values of the first request element of the type, or else with those of the current
   one, but for its key and its resource name.
   */
  lemma ElementOfType(all: seq<Element>, namingType: string, current: Element, key: string)
    ensures var e := ElementOf(all, namingType, current);
            && "naming-type" in e && e["naming-type"] == namingType
            && ((forall i :: 0 <= i < |all| ==> ValueOf(all[i], "naming-type") != Some(namingType)) ==>
                  && "external-key" !in e && "resource-name" !in e
                  && (key !in {"naming-type", "external-key", "resource-name"} ==>
                        (key in e <==> key in current) && (key in e ==> e[key] == current[key])))
            && forall i :: 0 <= i < |all| && ValueOf(all[i], "naming-type") == Some(namingType)
                           && (forall j :: 0 <= j < i ==> ValueOf(all[j], "naming-type") != Some(namingType)) ==>
                 key != "naming-type" ==> (key in e <==> key in all[i]) && (key in e ==> e[key] == all[i][key])
  {
    hide ValueOf;
  }

  /** A rank for the models and elements that a request comes to, and none for others. */
  type Rank = (nat, Element) -> Option<nat>

  /** The recipe has the item, and the element at hand has no value for it. */
  ghost predicate Follows(model: NamingModel, e: Element, item: string) {
    model.recipe.Some? && item in model.recipe.value && item != "SEQUENCE" && OwnValue(model, e, item).None?
  }

  /** Following such an item lowers the rank. */
  ghost predicate Acyclic(models: seq<NamingModel>, rank: Rank, all: seq<Element>) {
    forall m: nat, e: Element, item ::
      m < |models| && rank(m, e).Some? && Follows(models[m], e, item) ==> Falls(models, m, e, item, rank, all)
  }

  ghost predicate Falls(models: seq<NamingModel>, m: nat, e: Element, item: string, rank: Rank, all: seq<Element>) {
    var k := FindRelaxed(models, item);
    k < |models| && TypeOf(models[k]).Some? && rank(m, e).Some? ==>
      var next := rank(k, ElementOf(all, TypeOf(models[k]).value, e));
      next.Some? && next.value < rank(m, e).value
  }

  /** No recipe names its sequence twice. */
  ghost predicate SingleSequences(models: seq<NamingModel>) {
    forall m, i, j :: 0 <= m < |models| && models[m].recipe.Some? && 0 <= i < j < |models[m].recipe.value| ==>
      !(models[m].recipe.value[i] == models[m].recipe.value[j] == "SEQUENCE")
  }
}
