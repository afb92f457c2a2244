/** A session of the tracker: the catalog, the day's log and the daily goal, and what
    each control does to them. Random ids, clock readings and the text of an imported
    file come in as data. */
module App {
  import opened Wrappers
  import opened Numeric
  import opened Json
  import opened Rows
  import opened Catalog
  import opened Nutrients
  import opened FoodLog
  import opened Goals
  import opened Csv

  /** What the page keeps between renders. */
  datatype State = State(db: seq<Food>, items: seq<Row>, goal: Macros)

  /** A fresh session: the seed catalog, an empty log and the default goal. */
  const Initial: State := State(BaseDb, [], DefaultGoal)

  /** What a user can do. `Log` is the "Add" button of a search result, `EditGoal`
      typing into one box of the goal card, `CommitGoal` the calculator writing its
      proposal (on every change of its inputs, and again from its button), `Import`
      choosing a file. */
  datatype Action =
    | Log(food: Food, input: string, meal: Meal, id: string, ts: int)
    | Delete(id: string)
    | Clear
    | AddCustom(form: FoodForm)
    | EditGoalField(f: Field, input: string)
    | CommitGoal(p: Profile)
    | Import(text: string, stamp: nat -> Stamp)

  /** The state after an action, and the alert it raised, if any. */
  datatype Outcome = Outcome(state: State, alert: Option<string>)

  /** One action, with `reader` cutting the data lines of an imported file: the page
      itself is `Step(s, a, SplitOnComma)`, the page with its import corrected is
      `Step(s, a, ReadJson)`. Only a nameless custom food and an unreadable file raise
      an alert, and an action that alerts changes nothing; each action touches only
      its own part of the state. */
  function Step(s: State, a: Action, reader: Reader): (o: Outcome)
    ensures o.alert.Some? <==> (a.AddCustom? && a.form.name == []) || (a.Import? && ImportCsv(s.items, a.text, reader, a.stamp).Failure?)
    ensures o.alert.Some? ==> o.state == s && o.alert.value in {NameMissing, InvalidCsv}
    ensures !a.AddCustom? ==> o.state.db == s.db
    ensures !a.EditGoalField? && !a.CommitGoal? ==> o.state.goal == s.goal
    ensures a.AddCustom? || a.EditGoalField? || a.CommitGoal? ==> o.state.items == s.items
    ensures a.Log? ==> |o.state.items| == |s.items| + 1 && o.state.items[1..] == s.items
    ensures a.Delete? ==> |o.state.items| <= |s.items|
    ensures a.Clear? ==> o.state.items == []
    ensures a.AddCustom? && o.alert.None? ==> |o.state.db| == |s.db| + 1 && o.state.db[1..] == s.db
    ensures a.Import? && o.alert.None? ==> |o.state.items| >= |s.items| && o.state.items[|o.state.items| - |s.items|..] == s.items
  {
    match a
    case Log(food, input, meal, id, ts) => Outcome(s.(items := AddToLog(s.items, food, input, meal, id, ts)), None)
    case Delete(id) => Outcome(s.(items := DeleteItem(s.items, id)), None)
    case Clear => Outcome(s.(items := ClearAll), None)
    case AddCustom(form) => CustomStep(s, form)
    case EditGoalField(f, input) => Outcome(s.(goal := EditGoal(s.goal, f, input)), None)
    case CommitGoal(p) => Outcome(s.(goal := ComputeGoal(p)), None)
    case Import(text, stamp) => ImportStep(s, text, reader, stamp)
  }

  /** The custom-food form: the alert and no change for an empty name, otherwise
      one more food in front of the catalog. */
  function CustomStep(s: State, form: FoodForm): (o: Outcome)
    ensures o.alert.Some? <==> form.name == []
    ensures o.alert.Some? ==> o.state == s && o.alert.value == NameMissing
    ensures o.state.items == s.items && o.state.goal == s.goal
    ensures o.alert.None? ==> |o.state.db| == |s.db| + 1 && o.state.db[1..] == s.db
  {
    match AddCustomFood(s.db, form)
    case Failure(e) => Outcome(s, Some(e))
    case Success(db) => Outcome(s.(db := db), None)
  }

  /** Choosing a file: the alert and no change when it cannot be read, otherwise the
      imported rows in front of the log. */
  function ImportStep(s: State, text: string, reader: Reader, stamp: nat -> Stamp): (o: Outcome)
    ensures o.alert.Some? <==> ImportCsv(s.items, text, reader, stamp).Failure?
    ensures o.alert.Some? ==> o.state == s && o.alert.value == InvalidCsv
    ensures o.state.db == s.db && o.state.goal == s.goal
    ensures o.alert.None? ==> |o.state.items| >= |s.items| && o.state.items[|o.state.items| - |s.items|..] == s.items
  {
    match ImportCsv(s.items, text, reader, stamp)
    case Failure(e) => Outcome(s, Some(e))
    case Success(items) => Outcome(s.(items := items), None)
  }

  /** The text the "Export" button downloads. */
  function ExportText(s: State): string {
    Export(s.items)
  }

  // ---------------------------------------------------------------------------
  // Sessions

  /** A fresh session lists the twenty seed foods, has logged nothing, and shows
      zero totals against the default goal. */
  lemma InitialSession(f: Field)
    ensures |Initial.db| == 20 && Initial.items == []
    ensures Total(Initial.items, f) == Some(0.0)
    ensures Progress(Total(Initial.items, f), Initial.goal.Get(f)) == Some(0.0)
  {
    TotalIsSum(Initial.items, f);
    ProgressShare(0.0, Initial.goal.Get(f));
  }

  /** Deleting the entry just logged under a fresh id gives back the session before. */
  lemma LogThenDelete(s: State, food: Food, input: string, meal: Meal, id: string, ts: int, reader: Reader)
    requires forall k :: 0 <= k < |s.items| ==> !HasId(s.items[k], id)
    ensures Step(Step(s, Log(food, input, meal, id, ts), reader).state, Delete(id), reader) == Outcome(s, None)
  {
    DeleteAfterAdd(s.items, food, input, meal, id, ts);
  }

  /** Clearing the log brings every total back to zero. */
  lemma ClearZeroes(s: State, f: Field, reader: Reader)
    ensures Total(Step(s, Clear, reader).state.items, f) == Some(0.0)
  {
    TotalIsSum([], f);
  }

  /** A custom food is found by searching for its own name, ahead of every older
      match. */
  lemma CustomFoodSearch(s: State, form: FoodForm, reader: Reader)
    requires form.name != []
    ensures Search(Step(s, AddCustom(form), reader).state.db, form.name) == [FormFood(form)] + Search(s.db, form.name)
  {
    CustomFoodFound(s.db, form);
  }

  /** Committing the calculator's proposal twice is committing it once. */
  lemma CommitGoalTwice(s: State, p: Profile, reader: Reader)
    ensures Step(Step(s, CommitGoal(p), reader).state, CommitGoal(p), reader) == Step(s, CommitGoal(p), reader)
    ensures Step(s, CommitGoal(p), reader).state.goal == ComputeGoal(p)
  {
  }

  /** In a fresh session the calculator's starting inputs replace the default goal of
      2200 kcal, 120 g protein, 250 g carbohydrate and 70 g fat by 2594 kcal, 112 g,
      324.3 g and 72.1 g. */
  lemma InitialCommit(reader: Reader)
    ensures Initial.goal == Macros(2200.0, 120.0, 250.0, 70.0)
    ensures Step(Initial, CommitGoal(DefaultProfile), reader).state.goal == Macros(2594.0, 112.0, 324.3, 72.1)
  {
    DefaultNeeds();
  }

  // ---------------------------------------------------------------------------
  // Exporting a log of entries

  /** What one press of "Add" was given: the food, the portion typed and the meal,
      and the id and clock reading the new entry received. */
  datatype Logged = Logged(food: Food, input: string, meal: Meal, id: string, ts: int)

  /** The log a series of presses built, the latest first. */
  function Entries(ls: seq<Logged>): (log: seq<Row>)
    ensures |log| == |ls|
    ensures forall i :: 0 <= i < |ls| ==> log[i] == NewEntry(ls[i].food, ls[i].input, ls[i].meal, ls[i].id, ls[i].ts)
  {
    seq(|ls|, i requires 0 <= i < |ls| => NewEntry(ls[i].food, ls[i].input, ls[i].meal, ls[i].id, ls[i].ts))
  }

  lemma EntriesHead(ls: seq<Logged>, l: Logged)
    ensures Entries([l] + ls)[0] == NewEntry(l.food, l.input, l.meal, l.id, l.ts)
  {
    assert ([l] + ls)[0] == l;
  }

  lemma EntriesTail(ls: seq<Logged>, l: Logged)
    ensures Entries([l] + ls)[1..] == Entries(ls)
  {
    assert forall i :: 0 <= i < |ls| ==> ([l] + ls)[i + 1] == ls[i];
  }

  /** Logging one more portion puts its entry in front of the log it builds on. */
  lemma LogEntries(ls: seq<Logged>, l: Logged)
    ensures AddToLog(Entries(ls), l.food, l.input, l.meal, l.id, l.ts) == Entries([l] + ls)
  {
    var r := AddToLog(Entries(ls), l.food, l.input, l.meal, l.id, l.ts);
    var e := Entries([l] + ls);
    EntriesHead(ls, l);
    EntriesTail(ls, l);
    assert r[0] == e[0];
  }

  /** The columns of an exported log. */
  const ExportKeys: seq<string> := ["name", "meal", "grams", "kcal", "protein", "carbs", "fat"]

  /** An exported entry: the name, the meal, the portion and the four amounts. */
  function Columns(name: string, meal: string, g: Dec, k: Dec, p: Dec, c: Dec, f: Dec): (r: Row)
    ensures Keys(r) == ExportKeys
  {
    [ ("name", Str(name)), ("meal", Str(meal)), ("grams", Num(g)),
      ("kcal", Num(k)), ("protein", Num(p)), ("carbs", Num(c)), ("fat", Num(f)) ]
  }

  /** A new entry without its id and timestamp. */
  function Exported(food: Food, input: string, meal: Meal): Row {
    var g := PortionGrams(input);
    Columns(food.name, MealName(meal), g, Portion(food.kcal, g), Portion(food.protein, g), Portion(food.carbs, g), Portion(food.fat, g))
  }

  /** Stripping a new entry leaves the seven columns in their order. */
  lemma StripEntry(food: Food, input: string, meal: Meal, id: string, ts: int)
    ensures Strip(NewEntry(food, input, meal, id, ts)) == Exported(food, input, meal)
  {
    EntryShape(food, input, meal, id, ts);
    ExportKeysKept();
    WithoutEnds(("id", Str(id)), Exported(food, input, meal), ("ts", Num(FromInt(ts))), {"id", "ts"});
  }

  /** A new entry is its id, its exported columns and its timestamp. */
  lemma EntryShape(food: Food, input: string, meal: Meal, id: string, ts: int)
    ensures NewEntry(food, input, meal, id, ts) == [("id", Str(id))] + Exported(food, input, meal) + [("ts", Num(FromInt(ts)))]
  {
    var g := PortionGrams(input);
    var k, p, c, f := Portion(food.kcal, g), Portion(food.protein, g), Portion(food.carbs, g), Portion(food.fat, g);
    Framed(("id", Str(id)), ("name", Str(food.name)), ("meal", Str(MealName(meal))), ("grams", Num(g)),
      ("kcal", Num(k)), ("protein", Num(p)), ("carbs", Num(c)), ("fat", Num(f)), ("ts", Num(FromInt(ts))));
  }

  lemma Framed(a: Entry, b: Entry, c: Entry, d: Entry, e: Entry, f: Entry, g: Entry, h: Entry, i: Entry)
    ensures [a, b, c, d, e, f, g, h, i] == [a] + [b, c, d, e, f, g, h] + [i]
  {
  }

  /** No exported column is an id or a timestamp. */
  lemma ExportKeysKept()
    ensures forall k :: 0 <= k < |ExportKeys| ==> ExportKeys[k] !in {"id", "ts"}
  {
  }

  /** An exported entry lists distinct keys and plain values only. */
  lemma ExportedPlain(food: Food, input: string, meal: Meal)
    ensures DistinctKeys(Exported(food, input, meal))
    ensures forall j :: 0 <= j < |Exported(food, input, meal)| ==> Plain(Exported(food, input, meal)[j].1)
  {
    var g := PortionGrams(input);
    ColumnsPlain(food.name, MealName(meal), g, Portion(food.kcal, g), Portion(food.protein, g), Portion(food.carbs, g), Portion(food.fat, g));
  }

  lemma ColumnsPlain(name: string, meal: string, g: Dec, k: Dec, p: Dec, c: Dec, f: Dec)
    requires g.Normal() && k.Normal() && p.Normal() && c.Normal() && f.Normal()
    ensures DistinctKeys(Columns(name, meal, g, k, p, c, f))
    ensures forall j :: 0 <= j < 7 ==> Plain(Columns(name, meal, g, k, p, c, f)[j].1)
  {
    ExportKeysDistinct();
    var r := Columns(name, meal, g, k, p, c, f);
    assert forall i :: 0 <= i < 7 ==> r[i].0 == ExportKeys[i];
  }

  /** The seven columns start with seven different letters. */
  lemma ExportKeysDistinct()
    ensures forall i, j :: 0 <= i < j < |ExportKeys| ==> ExportKeys[i] != ExportKeys[j]
  {
    var heads := seq(|ExportKeys|, k requires 0 <= k < |ExportKeys| => ExportKeys[k][0]);
    assert heads == "nmgkpcf";
    forall i, j | 0 <= i < j < |ExportKeys|
      ensures ExportKeys[i] != ExportKeys[j]
    {
      assert heads[i] != heads[j];
    }
  }

  /** The export header of a log of entries passes the line and comma splits. */
  lemma ExportKeysOk()
    ensures HeaderOk(ExportKeys)
  {
    assert forall k :: 0 <= k < |ExportKeys| ==> ',' !in ExportKeys[k] && '\n' !in ExportKeys[k] && '\r' !in ExportKeys[k];
  }

  /** A non-empty log of entries exports as a table of plain values under the seven
      columns. */
  lemma EntriesExportable(ls: seq<Logged>)
    requires ls != []
    ensures Exportable(Entries(ls))
    ensures forall i :: 0 <= i < |ls| ==> Strip(Entries(ls)[i]) == Exported(ls[i].food, ls[i].input, ls[i].meal)
  {
    var log := Entries(ls);
    forall i | 0 <= i < |ls|
      ensures Strip(log[i]) == Exported(ls[i].food, ls[i].input, ls[i].meal)
      ensures Keys(Strip(log[i])) == ExportKeys && DistinctKeys(Strip(log[i]))
      ensures forall j :: 0 <= j < |Strip(log[i])| ==> Plain(Strip(log[i])[j].1)
    {
      StripEntry(ls[i].food, ls[i].input, ls[i].meal, ls[i].id, ls[i].ts);
      ExportedPlain(ls[i].food, ls[i].input, ls[i].meal);
    }
    ExportKeysOk();
  }

  /** With the corrected import, exporting a non-empty log of entries and importing
      the file puts the entries, without their old ids and timestamps and newly
      stamped, in front of the log. */
  lemma ExportThenImport(s: State, ls: seq<Logged>, stamp: nat -> Stamp)
    requires s.items == Entries(ls) && ls != []
    ensures Step(s, Import(ExportText(s), stamp), ReadJson)
         == Outcome(s.(items := Restamp(Stripped(s.items), stamp) + s.items), None)
  {
    EntriesExportable(ls);
    ExportImportJson(s.items, s.items, stamp);
  }

  /** The page, splitting lines at commas, refuses its own exported file with the
      "Invalid CSV" alert as soon as one logged food name holds a comma. */
  lemma ExportThenSplitImport(s: State, ls: seq<Logged>, stamp: nat -> Stamp, i: nat)
    requires s.items == Entries(ls)
    requires i < |ls| && ',' in ls[i].food.name
    ensures ImportCsv(s.items, ExportText(s), SplitOnComma, stamp) == Failure(InvalidCsv)
    ensures Step(s, Import(ExportText(s), stamp), SplitOnComma) == Outcome(s, Some(InvalidCsv))
  {
    EntriesExportable(ls);
    assert Strip(s.items[i])[0].1 == Str(ls[i].food.name);
    ExportSplitBreaks(s.items, s.items, stamp, i, 0);
    ImportAlert(s, ExportText(s), SplitOnComma, stamp);
  }

  /** A file the reader cannot import raises the alert and leaves the session alone. */
  lemma ImportAlert(s: State, text: string, reader: Reader, stamp: nat -> Stamp)
    requires ImportCsv(s.items, text, reader, stamp) == Failure(InvalidCsv)
    ensures Step(s, Import(text, stamp), reader) == Outcome(s, Some(InvalidCsv))
  {
  }

  /** Logging a food whose name holds a comma, "Egg, whole" for one, and exporting:
      the page alerts "Invalid CSV" on the file and keeps its state, while the
      corrected import, reading JSON value after value, reads the file back. */
  lemma CommaNameExport(s: State, ls: seq<Logged>, l: Logged, stamp: nat -> Stamp, reader: Reader)
    requires s.items == Entries(ls)
    requires ',' in l.food.name
    ensures var t := Step(s, Log(l.food, l.input, l.meal, l.id, l.ts), reader).state;
      && Step(t, Import(ExportText(t), stamp), SplitOnComma) == Outcome(t, Some(InvalidCsv))
      && Step(t, Import(ExportText(t), stamp), ReadJson).alert == None
  {
    var t := Step(s, Log(l.food, l.input, l.meal, l.id, l.ts), reader).state;
    LogEntries(ls, l);
    ExportThenSplitImport(t, [l] + ls, stamp, 0);
    ExportThenImport(t, [l] + ls, stamp);
  }

  /** The first seed food's name holds a comma. */
  lemma EggWhole()
    ensures BaseDb[0].name == "Egg, whole" && ',' in BaseDb[0].name
  {
    assert BaseDb[0].name[3] == ',';
  }
}
