/** The day's log: adding a portion of a catalog food, deleting entries by id,
    clearing, the per-field totals and the progress bar value. Entries are stored as
    rows (see `Rows`) because an import can give them any keys at all. */
module FoodLog {
  import opened Wrappers
  import opened Digits
  import opened Numeric
  import opened Seqs
  import opened Json
  import opened Rows
  import opened Catalog
  import opened Nutrients

  /** The meal chosen in the drop-down next to the search box. */
  datatype Meal = Any | Breakfast | Lunch | Dinner | Snack

  function MealName(m: Meal): string {
    match m
    case Any => "Any"
    case Breakfast => "Breakfast"
    case Lunch => "Lunch"
    case Dinner => "Dinner"
    case Snack => "Snack"
  }

  /** The per-100 g amount of one field of a catalog record. */
  function PerHundred(food: Food, f: Field): Dec {
    match f
    case Kcal => food.kcal
    case Protein => food.protein
    case Carbs => food.carbs
    case Fat => food.fat
  }

  // ---------------------------------------------------------------------------
  // Adding to the log

  /** `grams(input) || 100`: the portion typed in, or 100 g when it reads as 0 or does
      not read as a number at all. A negative portion is kept. */
  function PortionGrams(input: string): (g: Dec)
    ensures g.Normal() && g.Val() != 0.0
    ensures Grams(input).Val() != 0.0 ==> g == Grams(input)
    ensures Grams(input).Val() == 0.0 ==> g.Val() == 100.0
  {
    OrHundred(Grams(input))
  }

  /** `x || 100` for a number `x`. */
  function OrHundred(x: Dec): (g: Dec)
    requires x.Normal()
    ensures g.Normal() && g.Val() != 0.0
    ensures x.Val() != 0.0 ==> g == x
    ensures x.Val() == 0.0 ==> g.Val() == 100.0
  {
    if x.Val() == 0.0 then
      assert Dec(100, 0).Val() == 100.0 by {
        assert Pow10(0) == 1;
      }
      Dec(100, 0)
    else x
  }

  /** Typing a non-zero number, as `toString` writes it, gives exactly that portion. */
  lemma PortionTyped(d: Dec)
    requires d.Val() != 0.0
    ensures PortionGrams(ShowNumber(d)) == Norm(d)
  {
    GramsShown(d);
  }

  /** `round(per100 * g / 100, 1)`: the amount in a portion of `g` grams, to one
      decimal, within 0.05 of the exact amount. */
  function Portion(per100: Dec, g: Dec): (r: Dec)
    ensures r.Normal() && r.e <= 1
    ensures per100.Val() * (g.Val() / 100.0) - 0.05 < r.Val() <= per100.Val() * (g.Val() / 100.0) + 0.05
  {
    Round(per100.Val() * (g.Val() / 100.0), 1)
  }

  /** A 100 g portion of an amount with at most one decimal is that amount. */
  lemma PortionHundred(per100: Dec)
    requires per100.e <= 1
    ensures Portion(per100, Dec(100, 0)).Val() == per100.Val()
  {
    assert Dec(100, 0).Val() / 100.0 == 1.0;
    RoundExact(per100, 1);
  }

  /** The keys of a new entry, in the order the entry lists them. */
  const EntryKeys: seq<string> := ["id", "name", "meal", "grams", "kcal", "protein", "carbs", "fat", "ts"]

  /** The entry `addToLog` builds for a portion of `food`; `id` and `ts` stand for the
      random UUID and the clock reading. */
  function NewEntry(food: Food, input: string, meal: Meal, id: string, ts: int): Row {
    var g := PortionGrams(input);
    [ ("id", Str(id)), ("name", Str(food.name)), ("meal", Str(MealName(meal))), ("grams", Num(g)),
      ("kcal", Num(Portion(food.kcal, g))), ("protein", Num(Portion(food.protein, g))),
      ("carbs", Num(Portion(food.carbs, g))), ("fat", Num(Portion(food.fat, g))),
      ("ts", Num(FromInt(ts))) ]
  }

  /** A new entry reads back the id, name, meal, portion and timestamp it was given. */
  lemma NewEntryInfo(food: Food, input: string, meal: Meal, id: string, ts: int)
    ensures Get(NewEntry(food, input, meal, id, ts), "id") == Str(id)
    ensures Get(NewEntry(food, input, meal, id, ts), "name") == Str(food.name)
    ensures Get(NewEntry(food, input, meal, id, ts), "meal") == Str(MealName(meal))
    ensures Get(NewEntry(food, input, meal, id, ts), "grams") == Num(PortionGrams(input))
    ensures Get(NewEntry(food, input, meal, id, ts), "ts") == Num(FromInt(ts))
  {
    var g := PortionGrams(input);
    EntryGet(Str(id), Str(food.name), Str(MealName(meal)), Num(g),
      Num(Portion(food.kcal, g)), Num(Portion(food.protein, g)),
      Num(Portion(food.carbs, g)), Num(Portion(food.fat, g)), Num(FromInt(ts)));
  }

  /** Each field of a new entry is the per-100 g amount scaled to the portion and
      rounded to one decimal. */
  lemma NewEntryField(food: Food, input: string, meal: Meal, id: string, ts: int, f: Field)
    ensures Get(NewEntry(food, input, meal, id, ts), Key(f)) == Num(Portion(PerHundred(food, f), PortionGrams(input)))
  {
    var g := PortionGrams(input);
    EntryGet(Str(id), Str(food.name), Str(MealName(meal)), Num(g),
      Num(Portion(food.kcal, g)), Num(Portion(food.protein, g)),
      Num(Portion(food.carbs, g)), Num(Portion(food.fat, g)), Num(FromInt(ts)));
  }

  /** Each of the nine keys reads the value stored under it. */
  lemma EntryGet(a: Value, b: Value, c: Value, d: Value, e: Value, f: Value, g: Value, h: Value, i: Value)
    ensures var r := [("id", a), ("name", b), ("meal", c), ("grams", d), ("kcal", e),
                      ("protein", f), ("carbs", g), ("fat", h), ("ts", i)];
      && Get(r, "id") == a && Get(r, "name") == b && Get(r, "meal") == c
      && Get(r, "grams") == d && Get(r, "kcal") == e && Get(r, "protein") == f
      && Get(r, "carbs") == g && Get(r, "fat") == h && Get(r, "ts") == i
  {
    var r := [("id", a), ("name", b), ("meal", c), ("grams", d), ("kcal", e),
              ("protein", f), ("carbs", g), ("fat", h), ("ts", i)];
    EntryKeysOf(a, b, c, d, e, f, g, h, i);
    GetAt(r, 0);
    GetAt(r, 1);
    GetAt(r, 2);
    GetAt(r, 3);
    GetAt(r, 4);
    GetAt(r, 5);
    GetAt(r, 6);
    GetAt(r, 7);
    GetAt(r, 8);
  }

  /** A new entry lists the nine keys, each once. */
  lemma NewEntryKeys(food: Food, input: string, meal: Meal, id: string, ts: int)
    ensures Keys(NewEntry(food, input, meal, id, ts)) == EntryKeys
    ensures DistinctKeys(NewEntry(food, input, meal, id, ts))
  {
    var g := PortionGrams(input);
    EntryKeysOf(Str(id), Str(food.name), Str(MealName(meal)), Num(g),
      Num(Portion(food.kcal, g)), Num(Portion(food.protein, g)),
      Num(Portion(food.carbs, g)), Num(Portion(food.fat, g)), Num(FromInt(ts)));
  }

  /** Any nine values under the entry keys make a row with those keys, each once. */
  lemma EntryKeysOf(a: Value, b: Value, c: Value, d: Value, e: Value, f: Value, g: Value, h: Value, i: Value)
    ensures var r := [("id", a), ("name", b), ("meal", c), ("grams", d), ("kcal", e),
                      ("protein", f), ("carbs", g), ("fat", h), ("ts", i)];
      Keys(r) == EntryKeys && DistinctKeys(r)
  {
    var r := [("id", a), ("name", b), ("meal", c), ("grams", d), ("kcal", e),
              ("protein", f), ("carbs", g), ("fat", h), ("ts", i)];
    assert Keys(r) == EntryKeys;
    EntryKeysDistinct();
  }

  /** The nine keys start with nine different letters. */
  lemma EntryKeysDistinct()
    ensures forall i, j :: 0 <= i < j < |EntryKeys| ==> EntryKeys[i] != EntryKeys[j]
  {
    var heads := seq(|EntryKeys|, k requires 0 <= k < |EntryKeys| => EntryKeys[k][0]);
    assert heads == "inmgkpcft";
    forall i, j | 0 <= i < j < |EntryKeys|
      ensures EntryKeys[i] != EntryKeys[j]
    {
      assert heads[i] != heads[j];
    }
  }

  /** `addToLog(food)`: the new entry goes in front of the log. */
  function AddToLog(items: seq<Row>, food: Food, input: string, meal: Meal, id: string, ts: int): (r: seq<Row>)
    ensures |r| == |items| + 1 && r[1..] == items
    ensures r[0] == NewEntry(food, input, meal, id, ts)
    ensures Get(r[0], "id") == Str(id)
  {
    NewEntryInfo(food, input, meal, id, ts);
    [NewEntry(food, input, meal, id, ts)] + items
  }

  // ---------------------------------------------------------------------------
  // Deleting and clearing

  /** The entry carries the id. */
  predicate HasId(r: Row, id: string) {
    Get(r, "id") == Str(id)
  }

  /** `deleteItem(id)`: every entry with that id goes, the others stay in order. */
  function DeleteItem(items: seq<Row>, id: string): (r: seq<Row>)
    ensures |r| <= |items|
    ensures forall k :: 0 <= k < |r| ==> !HasId(r[k], id)
  {
    Filter(items, (x: Row) => !HasId(x, id))
  }

  /** The entries a delete removes. */
  function Removed(items: seq<Row>, id: string): seq<Row> {
    Filter(items, (x: Row) => HasId(x, id))
  }

  /** An entry survives a delete exactly when it is in the log with another id, as
      often as the log holds it, and the survivors keep their order. */
  lemma DeleteSpec(items: seq<Row>, id: string, x: Row)
    ensures x in DeleteItem(items, id) <==> x in items && !HasId(x, id)
    ensures multiset(DeleteItem(items, id))[x] == if HasId(x, id) then 0 else multiset(items)[x]
    ensures IsSubseq(DeleteItem(items, id), items)
  {
    FilterMembers(items, (y: Row) => !HasId(y, id), x);
    FilterCount(items, (y: Row) => !HasId(y, id), x);
    FilterSubseq(items, (y: Row) => !HasId(y, id));
  }

  /** Deleting an id that no entry carries changes nothing. */
  lemma DeleteAbsent(items: seq<Row>, id: string)
    requires forall k :: 0 <= k < |items| ==> !HasId(items[k], id)
    ensures DeleteItem(items, id) == items
  {
    FilterAll(items, (y: Row) => !HasId(y, id));
  }

  /** Deleting the entry just added under a fresh id gives back the log before. */
  lemma DeleteAfterAdd(items: seq<Row>, food: Food, input: string, meal: Meal, id: string, ts: int)
    requires forall k :: 0 <= k < |items| ==> !HasId(items[k], id)
    ensures DeleteItem(AddToLog(items, food, input, meal, id, ts), id) == items
  {
    var r := AddToLog(items, food, input, meal, id, ts);
    assert r == [r[0]] + items;
    DeleteAbsent(items, id);
  }

  /** `clearAll`: the empty log. */
  const ClearAll: seq<Row> := []

  // ---------------------------------------------------------------------------
  // Totals

  /** What `acc + it[k]` adds for a stored value: a number itself, `null` 0, a boolean
      0 or 1. A string turns the sum into a string and `undefined` turns it into NaN;
      both are `None`, "not a number". */
  function Addend(v: Value): Option<real> {
    match v
    case Num(d) => Some(d.Val())
    case Null => Some(0.0)
    case Bool(b) => Some(if b then 1.0 else 0.0)
    case Str(_) => None
    case Undefined => None
  }

  /** Addition that stays "not a number" once it is. */
  function Plus(a: Option<real>, b: Option<real>): (r: Option<real>)
    ensures r.Some? <==> a.Some? && b.Some?
  {
    if a.Some? && b.Some? then Some(a.value + b.value) else None
  }

  /** The amount entry `x` adds to the total of field `f`. */
  function Amount(x: Row, f: Field): Option<real> {
    Addend(Get(x, Key(f)))
  }

  /** The reduce step by step, starting from `acc`: each entry's amount added on the
      right, first entry first. */
  function Fold(acc: Option<real>, items: seq<Row>, f: Field): Option<real>
    decreases |items|
  {
    if items == [] then acc else Fold(Plus(acc, Amount(items[0], f)), items[1..], f)
  }

  /** `totals[f]`: the reduce from 0 over the log. */
  function Total(items: seq<Row>, f: Field): Option<real> {
    Fold(Some(0.0), items, f)
  }

  /** The sum of the amounts, as a reference definition. */
  function Sum(items: seq<Row>, f: Field): Option<real>
    decreases |items|
  {
    if items == [] then Some(0.0) else Plus(Amount(items[0], f), Sum(items[1..], f))
  }

  lemma PlusAssoc(a: Option<real>, b: Option<real>, c: Option<real>)
    ensures Plus(Plus(a, b), c) == Plus(a, Plus(b, c))
  {
  }

  /** The reduce from `acc` is `acc` plus the sum. */
  lemma {:induction false} FoldSum(acc: Option<real>, items: seq<Row>, f: Field)
    ensures Fold(acc, items, f) == Plus(acc, Sum(items, f))
    decreases |items|
  {
    if items != [] {
      FoldSum(Plus(acc, Amount(items[0], f)), items[1..], f);
      PlusAssoc(acc, Amount(items[0], f), Sum(items[1..], f));
    }
  }

  /** The total is the sum of the entries' amounts: zero for an empty log, and a number
      exactly when every entry's field holds a number, `null` or a boolean. */
  lemma TotalIsSum(items: seq<Row>, f: Field)
    ensures Total(items, f) == Sum(items, f)
    ensures items == [] ==> Total(items, f) == Some(0.0)
  {
    FoldSum(Some(0.0), items, f);
  }

  /** The total is a number exactly when every entry adds a number. */
  lemma {:induction false} SumDefined(items: seq<Row>, f: Field)
    ensures Sum(items, f).Some? <==> forall k :: 0 <= k < |items| ==> Amount(items[k], f).Some?
    decreases |items|
  {
    if items != [] {
      SumDefined(items[1..], f);
      assert forall k :: 1 <= k < |items| ==> items[k] == items[1..][k - 1];
    }
  }

  /** The sum over two logs put together. */
  lemma {:induction false} SumConcat(a: seq<Row>, b: seq<Row>, f: Field)
    ensures Sum(a + b, f) == Plus(Sum(a, f), Sum(b, f))
    decreases |a|
  {
    if a == [] {
      assert a + b == b;
    } else {
      assert (a + b)[1..] == a[1..] + b;
      SumConcat(a[1..], b, f);
      PlusAssoc(Amount(a[0], f), Sum(a[1..], f), Sum(b, f));
    }
  }

  /** Adding to the log raises each total by the new entry's amount. */
  lemma TotalAdd(items: seq<Row>, food: Food, input: string, meal: Meal, id: string, ts: int, f: Field)
    ensures Total(AddToLog(items, food, input, meal, id, ts), f)
         == Plus(Some(Portion(PerHundred(food, f), PortionGrams(input)).Val()), Total(items, f))
  {
    var r := AddToLog(items, food, input, meal, id, ts);
    NewEntryField(food, input, meal, id, ts, f);
    TotalIsSum(r, f);
    TotalIsSum(items, f);
  }

  /** Deleting an id lowers each total by the amounts of the removed entries. */
  lemma TotalDelete(items: seq<Row>, id: string, f: Field)
    ensures Total(items, f) == Plus(Total(DeleteItem(items, id), f), Sum(Removed(items, id), f))
  {
    TotalIsSum(items, f);
    TotalIsSum(DeleteItem(items, id), f);
    SumPartition(items, id, f);
  }

  /** The sum splits into the entries a delete keeps and those it removes. */
  lemma {:induction false} SumPartition(items: seq<Row>, id: string, f: Field)
    ensures Sum(items, f) == Plus(Sum(DeleteItem(items, id), f), Sum(Removed(items, id), f))
    decreases |items|
  {
    if items != [] {
      var x, t := items[0], items[1..];
      SumPartition(t, id, f);
      var a, d, e := Amount(x, f), Sum(DeleteItem(t, id), f), Sum(Removed(t, id), f);
      if HasId(x, id) {
        assert Removed(items, id) == [x] + Removed(t, id);
        assert ([x] + Removed(t, id))[1..] == Removed(t, id);
        assert Plus(a, Plus(d, e)) == Plus(d, Plus(a, e));
      } else {
        assert DeleteItem(items, id) == [x] + DeleteItem(t, id);
        assert ([x] + DeleteItem(t, id))[1..] == DeleteItem(t, id);
        PlusAssoc(a, d, e);
      }
    }
  }

  // ---------------------------------------------------------------------------
  // Progress

  function Min(a: real, b: real): real {
    if a <= b then a else b
  }

  /** The progress bar value `Math.min(100, (total / (goal || 1)) * 100)`: the total
      as a percentage of the goal, a zero goal counting as 1, capped at 100. A total
      that is not a number gives no value. */
  function Progress(total: Option<real>, goal: real): (r: Option<real>)
    ensures r.Some? <==> total.Some?
    ensures r.Some? ==> r.value <= 100.0
  {
    match total
    case None => None
    case Some(t) => Some(Min(100.0, t / (if goal == 0.0 then 1.0 else goal) * 100.0))
  }

  /** Below a positive goal the bar shows the exact percentage; at or above it, 100. */
  lemma ProgressShare(t: real, goal: real)
    requires goal > 0.0
    ensures t < goal ==> Progress(Some(t), goal) == Some(t / goal * 100.0)
    ensures t >= goal ==> Progress(Some(t), goal) == Some(100.0)
  {
    if t < goal {
      assert t / goal < 1.0;
    } else {
      assert t / goal >= 1.0;
    }
  }

  /** A zero goal divides by 1: any total of at least 1 fills the bar. */
  lemma ProgressZeroGoal(t: real)
    ensures Progress(Some(t), 0.0) == Some(Min(100.0, t * 100.0))
    ensures t >= 1.0 ==> Progress(Some(t), 0.0) == Some(100.0)
  {
  }

  /** For a positive goal, a larger total never shows less progress. */
  lemma ProgressMonotone(t1: real, t2: real, goal: real)
    requires goal > 0.0 && t1 <= t2
    ensures Progress(Some(t1), goal).value <= Progress(Some(t2), goal).value
  {
    assert t1 / goal <= t2 / goal;
  }
}
