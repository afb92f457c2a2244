/** The food catalog: per-100 g records, the seed catalog, the search box and the
    custom-food form. */
module Catalog {
  import opened Wrappers
  import opened Strings
  import opened Numeric
  import opened Seqs

  /** A catalog record: energy in kcal and the three macros in grams, per 100 g. */
  datatype Food = Food(name: string, kcal: Dec, protein: Dec, carbs: Dec, fat: Dec)

  /** The catalog a fresh session starts with. */
  const BaseDb: seq<Food> := [
    Food("Egg, whole", Dec(155, 0), Dec(13, 0), Dec(11, 1), Dec(11, 0)),
    Food("Chicken breast, skinless", Dec(165, 0), Dec(31, 0), Dec(0, 0), Dec(36, 1)),
    Food("Rice, white, cooked", Dec(130, 0), Dec(24, 1), Dec(28, 0), Dec(3, 1)),
    Food("Rice, basmati, cooked", Dec(121, 0), Dec(35, 1), Dec(252, 1), Dec(4, 1)),
    Food("Chapati/roti (atta)", Dec(297, 0), Dec(96, 1), Dec(54, 0), Dec(32, 1)),
    Food("Dal (lentils), cooked", Dec(116, 0), Dec(9, 0), Dec(20, 0), Dec(4, 1)),
    Food("Beef, lean", Dec(250, 0), Dec(26, 0), Dec(0, 0), Dec(15, 0)),
    Food("Mutton, lean", Dec(294, 0), Dec(25, 0), Dec(0, 0), Dec(21, 0)),
    Food("Fish, rohu", Dec(97, 0), Dec(17, 0), Dec(0, 0), Dec(3, 0)),
    Food("Milk, cow, 3.5%", Dec(64, 0), Dec(34, 1), Dec(48, 1), Dec(36, 1)),
    Food("Yogurt, plain", Dec(59, 0), Dec(10, 0), Dec(36, 1), Dec(4, 1)),
    Food("Banana", Dec(89, 0), Dec(11, 1), Dec(23, 0), Dec(3, 1)),
    Food("Apple", Dec(52, 0), Dec(3, 1), Dec(14, 0), Dec(2, 1)),
    Food("Dates, dried", Dec(282, 0), Dec(25, 1), Dec(75, 0), Dec(4, 1)),
    Food("Peanut butter", Dec(588, 0), Dec(25, 0), Dec(20, 0), Dec(50, 0)),
    Food("Almonds", Dec(579, 0), Dec(21, 0), Dec(22, 0), Dec(50, 0)),
    Food("Oil, vegetable", Dec(884, 0), Dec(0, 0), Dec(0, 0), Dec(100, 0)),
    Food("Potato, boiled", Dec(87, 0), Dec(19, 1), Dec(20, 0), Dec(1, 1)),
    Food("Biryani (avg)", Dec(185, 0), Dec(65, 1), Dec(22, 0), Dec(7, 0)),
    Food("Samosa (avg)", Dec(308, 0), Dec(7, 0), Dec(34, 0), Dec(17, 0))
  ]

  // ---------------------------------------------------------------------------
  // Search

  /** The trimmed, lower-cased query occurs in the lower-cased name. */
  predicate Matches(f: Food, query: string) {
    Includes(Lower(f.name), Lower(Trim(query)))
  }

  /** The search results: the matching records, in catalog order. */
  function Search(db: seq<Food>, query: string): (r: seq<Food>)
    ensures |r| <= |db|
    ensures forall k :: 0 <= k < |r| ==> Matches(r[k], query)
  {
    Filter(db, (f: Food) => Matches(f, query))
  }

  /** A record is a result exactly when it is in the catalog and matches, each record
      is listed as often as the catalog lists it, and the results keep catalog order. */
  lemma SearchSpec(db: seq<Food>, query: string, f: Food)
    ensures f in Search(db, query) <==> f in db && Matches(f, query)
    ensures multiset(Search(db, query))[f] == if Matches(f, query) then multiset(db)[f] else 0
    ensures IsSubseq(Search(db, query), db)
  {
    FilterMembers(db, (g: Food) => Matches(g, query), f);
    FilterCount(db, (g: Food) => Matches(g, query), f);
    FilterSubseq(db, (g: Food) => Matches(g, query));
  }

  /** An empty or white-space-only query lists the whole catalog. */
  lemma SearchBlank(db: seq<Food>, query: string)
    requires forall i :: 0 <= i < |query| ==> IsSpace(query[i])
    ensures Search(db, query) == db
  {
    TrimBlank(query);
    forall k | 0 <= k < |db|
      ensures Matches(db[k], query)
    {
      IncludesEmpty(Lower(db[k].name));
    }
    FilterAll(db, (f: Food) => Matches(f, query));
  }

  /** Searching a catalog with one record put in front gives that record first when it
      matches, followed by the results of the old catalog. */
  lemma SearchCons(f: Food, db: seq<Food>, query: string)
    ensures Search([f] + db, query) == (if Matches(f, query) then [f] else []) + Search(db, query)
  {
    assert ([f] + db)[1..] == db;
  }

  /** Surrounding white space and letter case in the query do not change the results. */
  lemma SearchNormalised(db: seq<Food>, query: string)
    ensures Search(db, Lower(Trim(query))) == Search(db, query)
  {
    NormalisedQuery(query);
    FilterSame(db, (f: Food) => Matches(f, Lower(Trim(query))), (f: Food) => Matches(f, query));
  }

  /** Normalising a normalised query changes nothing. */
  lemma NormalisedQuery(query: string)
    ensures Lower(Trim(Lower(Trim(query)))) == Lower(Trim(query))
  {
    var t := Trim(query);
    assert Trim(Lower(t)) == Lower(t) by {
      TrimSpec(query);
      LowerKeepsSpace(t);
      TrimUnchanged(Lower(t));
    }
    LowerIdempotent(t);
  }

  /** Case folding leaves white space where it was. */
  lemma LowerKeepsSpace(s: string)
    ensures s == [] || (IsSpace(Lower(s)[0]) == IsSpace(s[0]) && IsSpace(Lower(s)[|s| - 1]) == IsSpace(s[|s| - 1]))
  {
  }

  /** Folding twice is folding once. */
  lemma LowerIdempotent(s: string)
    ensures Lower(Lower(s)) == Lower(s)
  {
  }

  /** A record whose name is the trimmed query matches that query. */
  lemma MatchesOwnName(f: Food, query: string)
    requires f.name == Trim(query)
    ensures Matches(f, query)
  {
    assert OccursAt(Lower(f.name), Lower(Trim(query)), 0);
  }

  // ---------------------------------------------------------------------------
  // Custom foods

  /** The five text boxes of the custom-food form. */
  datatype FoodForm = FoodForm(name: string, kcal: string, protein: string, carbs: string, fat: string)

  /** The record built from a filled-in form: the name trimmed, the four numbers read
      by `grams`. */
  function FormFood(form: FoodForm): Food {
    Food(Trim(form.name), Grams(form.kcal), Grams(form.protein), Grams(form.carbs), Grams(form.fat))
  }

  /** The alert shown for a form without a name. */
  const NameMissing: string := "Enter a food name"

  /** `addCustomFood`: an empty name is refused; otherwise the new record goes in front
      of the catalog, which is otherwise unchanged. The emptiness test looks at the
      name before it is trimmed. */
  function AddCustomFood(db: seq<Food>, form: FoodForm): (r: Result<seq<Food>, string>)
    ensures r.Failure? <==> form.name == []
    ensures r.Failure? ==> r.error == NameMissing
    ensures r.Success? ==> |r.value| == |db| + 1 && r.value[1..] == db
    ensures r.Success? ==> r.value[0].name == Trim(form.name)
    ensures r.Success? ==> r.value[0].kcal == Grams(form.kcal) && r.value[0].protein == Grams(form.protein)
    ensures r.Success? ==> r.value[0].carbs == Grams(form.carbs) && r.value[0].fat == Grams(form.fat)
    ensures r.Success? && ParseFloat(form.kcal).None? ==> r.value[0].kcal.Val() == 0.0
  {
    if form.name == [] then Failure(NameMissing)
    else Success([FormFood(form)] + db)
  }

  /** A new custom food is found by searching for its own name, ahead of every older
      match. */
  lemma CustomFoodFound(db: seq<Food>, form: FoodForm)
    requires form.name != []
    ensures Search(AddCustomFood(db, form).value, form.name) == [FormFood(form)] + Search(db, form.name)
  {
    var f := FormFood(form);
    MatchesOwnName(f, form.name);
    SearchCons(f, db, form.name);
  }

  /** A name of white space only is accepted, and the record is stored with the empty
      name. */
  lemma CustomFoodBlankName(db: seq<Food>, form: FoodForm)
    requires form.name != []
    requires forall i :: 0 <= i < |form.name| ==> IsSpace(form.name[i])
    ensures AddCustomFood(db, form).Success?
    ensures AddCustomFood(db, form).value[0].name == []
  {
    TrimBlank(form.name);
  }
}
