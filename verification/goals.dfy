/** The daily goal: editing one field by hand, and the "Daily needs" calculator that
    derives a goal from a body profile with the Mifflin-St Jeor equation. */
module Goals {
  import opened Digits
  import opened Numeric
  import opened Nutrients

  // ---------------------------------------------------------------------------
  // Editing the goal

  /** `setGoal({...goal, [k]: grams(input)})`: field `f` takes the number typed in, 0
      when it does not read as a number; the other three fields keep their values. */
  function EditGoal(goal: Macros, f: Field, input: string): (r: Macros)
    ensures r.Get(f) == Grams(input).Val()
    ensures ParseFloat(input).None? ==> r.Get(f) == 0.0
    ensures forall g :: g != f ==> r.Get(g) == goal.Get(g)
  {
    goal.With(f, Grams(input).Val())
  }

  /** Typing a number, as `toString` writes it, into a goal box stores that number. */
  lemma EditGoalTyped(goal: Macros, f: Field, d: Dec)
    ensures EditGoal(goal, f, ShowNumber(d)).Get(f) == d.Val()
  {
    GramsShown(d);
  }

  // ---------------------------------------------------------------------------
  // The calculator

  datatype Sex = Male | Female

  /** The five choices of the activity drop-down. */
  datatype Activity = Sedentary | Light | Moderate | VeryActive | ExtraActive

  /** The multiplier each choice stands for. */
  function Factor(a: Activity): (x: real)
    ensures 1.2 <= x <= 1.9
    ensures a == Sedentary ==> x == 1.2
    ensures a == Light ==> x == 1.375
    ensures a == Moderate ==> x == 1.55
    ensures a == VeryActive ==> x == 1.725
    ensures a == ExtraActive ==> x == 1.9
  {
    match a
    case Sedentary => 1.2
    case Light => 1.375
    case Moderate => 1.55
    case VeryActive => 1.725
    case ExtraActive => 1.9
  }

  /** The choices in the order the drop-down lists them. */
  const Activities: seq<Activity> := [Sedentary, Light, Moderate, VeryActive, ExtraActive]

  /** The page keeps the chosen multiplier, not the choice: no two choices share a
      multiplier, so the multiplier tells which was chosen, and the multipliers rise
      down the list. */
  lemma FactorDistinct(a: Activity, b: Activity)
    ensures Factor(a) == Factor(b) <==> a == b
    ensures forall i, j :: 0 <= i < j < |Activities| ==> Factor(Activities[i]) < Factor(Activities[j])
  {
  }

  /** The calculator's inputs: age in years, height in cm, weight in kg, protein in g
      per kg of body weight, and the carbohydrate and fat shares of the energy, in
      percent. */
  datatype Profile = Profile(
    sex: Sex, age: real, height: real, weight: real, activity: Activity,
    proteinPerKg: real, carbSplit: real, fatSplit: real)

  /** The calculator's starting inputs. */
  const DefaultProfile: Profile := Profile(Male, 25.0, 175.0, 70.0, Moderate, 1.6, 50.0, 25.0)

  /** The basal metabolic rate by the Mifflin-St Jeor equation, in kcal per day. */
  function Bmr(p: Profile): real {
    10.0 * p.weight + 6.25 * p.height - 5.0 * p.age + (if p.sex == Male then 5.0 else -161.0)
  }

  /** The total daily energy expenditure: the basal rate times the activity factor. */
  function Tdee(p: Profile): real {
    Bmr(p) * Factor(p.activity)
  }

  /** The same body gets 166 kcal more as male than as female, whatever its size. */
  lemma BmrSexGap(p: Profile)
    ensures Bmr(p.(sex := Male)) - Bmr(p.(sex := Female)) == 166.0
  {
  }

  /** Each extra kilogram adds 10 kcal, each extra centimetre 6.25 kcal, each extra
      year takes 5 kcal away. */
  lemma BmrSlopes(p: Profile, dw: real, dh: real, da: real)
    ensures Bmr(p.(weight := p.weight + dw, height := p.height + dh, age := p.age + da))
         == Bmr(p) + 10.0 * dw + 6.25 * dh - 5.0 * da
  {
  }

  /** A real with at most one decimal. */
  predicate OneDecimal(x: real) {
    (x * 10.0).Floor as real == x * 10.0
  }

  /** `round(n)` with the default of one decimal: a number with at most one decimal
      within 0.05 of `n`, ties going up. */
  function RoundTenth(n: real): (r: real)
    ensures OneDecimal(r)
    ensures n - 0.05 < r <= n + 0.05
  {
    var d := Round(n, 1);
    assert Half(1) == 0.05 by {
      HalfIs(1);
    }
    TenthsOf(d);
    d.Val()
  }

  /** A decimal with at most one decimal place has a real value with at most one. */
  lemma TenthsOf(d: Dec)
    requires d.e <= 1
    ensures OneDecimal(d.Val())
  {
    if d.e == 0 {
      assert Pow10(0) == 1;
      WholeTenths(d.Val(), 10 * d.m);
    } else {
      assert Pow10(1) == 10;
      WholeTenths(d.Val(), d.m);
    }
  }

  /** A real whose tenfold is a whole number has at most one decimal. */
  lemma WholeTenths(x: real, k: int)
    requires x * 10.0 == k as real
    ensures OneDecimal(x)
  {
  }

  /** The contract of `RoundTenth` determines its value: any number with at most one
      decimal within 0.05 of `n`, ties going up, is the rounded value. */
  lemma RoundTenthUnique(n: real, x: real)
    requires OneDecimal(x)
    requires n - 0.05 < x <= n + 0.05
    ensures RoundTenth(n) == x
  {
    var k := (x * 10.0).Floor;
    var d := Dec(k, 1);
    assert d.Val() == x by {
      assert Pow10(1) == 10;
    }
    assert Half(1) == 0.05 by {
      HalfIs(1);
    }
    RoundUnique(n, 1, d);
  }

  /** The goal the calculator proposes: energy rounded to a whole kcal, protein from
      the body weight, carbohydrate at 4 kcal/g and fat at 9 kcal/g of their shares of
      the energy, each to one decimal. */
  function ComputeGoal(p: Profile): (g: Macros)
    ensures g.kcal == g.kcal.Floor as real
    ensures Tdee(p) - 0.5 < g.kcal <= Tdee(p) + 0.5
    ensures OneDecimal(g.protein) && OneDecimal(g.carbs) && OneDecimal(g.fat)
    ensures p.weight * p.proteinPerKg - 0.05 < g.protein <= p.weight * p.proteinPerKg + 0.05
    ensures ShareGrams(p.carbSplit, Tdee(p), 4.0) - 0.05 < g.carbs <= ShareGrams(p.carbSplit, Tdee(p), 4.0) + 0.05
    ensures ShareGrams(p.fatSplit, Tdee(p), 9.0) - 0.05 < g.fat <= ShareGrams(p.fatSplit, Tdee(p), 9.0) + 0.05
  {
    GoalFrom(Tdee(p), p.weight * p.proteinPerKg, p.carbSplit, p.fatSplit)
  }

  /** The goal for expenditure `t`, protein target `protein` and energy shares in
      percent. */
  function GoalFrom(t: real, protein: real, carbSplit: real, fatSplit: real): (g: Macros)
    ensures g.kcal == g.kcal.Floor as real
    ensures t - 0.5 < g.kcal <= t + 0.5
    ensures OneDecimal(g.protein) && OneDecimal(g.carbs) && OneDecimal(g.fat)
    ensures protein - 0.05 < g.protein <= protein + 0.05
    ensures ShareGrams(carbSplit, t, 4.0) - 0.05 < g.carbs <= ShareGrams(carbSplit, t, 4.0) + 0.05
    ensures ShareGrams(fatSplit, t, 9.0) - 0.05 < g.fat <= ShareGrams(fatSplit, t, 9.0) + 0.05
  {
    Macros(
      MathRound(t) as real,
      RoundTenth(protein),
      RoundTenth(ShareGrams(carbSplit, t, 4.0)),
      RoundTenth(ShareGrams(fatSplit, t, 9.0)))
  }

  /** The grams of a nutrient with `kcalPerGram` that supply `percent` percent of
      `t` kcal. */
  function ShareGrams(percent: real, t: real, kcalPerGram: real): real
    requires kcalPerGram > 0.0
  {
    percent / 100.0 * t / kcalPerGram
  }

  /** The energy in the proposed carbohydrate and fat is within 0.65 kcal of their
      shares of the expenditure. */
  lemma EnergySplit(p: Profile)
    ensures var g := ComputeGoal(p);
      var target := (p.carbSplit + p.fatSplit) / 100.0 * Tdee(p);
      target - 0.65 < 4.0 * g.carbs + 9.0 * g.fat <= target + 0.65
  {
    var g := ComputeGoal(p);
    EnergyOf(p.carbSplit, p.fatSplit, Tdee(p), g.carbs, g.fat);
  }

  lemma EnergyOf(cs: real, fs: real, t: real, c: real, f: real)
    requires ShareGrams(cs, t, 4.0) - 0.05 < c <= ShareGrams(cs, t, 4.0) + 0.05
    requires ShareGrams(fs, t, 9.0) - 0.05 < f <= ShareGrams(fs, t, 9.0) + 0.05
    ensures (cs + fs) / 100.0 * t - 0.65 < 4.0 * c + 9.0 * f <= (cs + fs) / 100.0 * t + 0.65
  {
    var x := cs / 100.0 * t;
    var y := fs / 100.0 * t;
    assert x + y == (cs + fs) / 100.0 * t;
    assert 4.0 * ShareGrams(cs, t, 4.0) == x;
    assert 9.0 * ShareGrams(fs, t, 9.0) == y;
  }

  /** With the starting inputs the calculator gives a basal rate of 1673.75 kcal, an
      expenditure of 2594.3125 kcal, and the goal 2594 kcal, 112 g protein, 324.3 g
      carbohydrate and 72.1 g fat. */
  lemma DefaultNeeds()
    ensures Bmr(DefaultProfile) == 1673.75
    ensures Tdee(DefaultProfile) == 2594.3125
    ensures ComputeGoal(DefaultProfile) == Macros(2594.0, 112.0, 324.3, 72.1)
  {
    var p := DefaultProfile;
    assert Tdee(p) == 2594.3125;
    var g := ComputeGoal(p);
    assert g.kcal == 2594.0;
    assert g.protein == 112.0 by {
      assert OneDecimal(112.0) by {
        assert (112.0 * 10.0).Floor == 1120;
      }
      RoundTenthUnique(70.0 * 1.6, 112.0);
    }
    assert g.carbs == 324.3 by {
      assert OneDecimal(324.3) by {
        assert (324.3 * 10.0).Floor == 3243;
      }
      assert ShareGrams(50.0, 2594.3125, 4.0) == 324.2890625;
      RoundTenthUnique(324.2890625, 324.3);
    }
    assert g.fat == 72.1 by {
      assert OneDecimal(72.1) by {
        assert (72.1 * 10.0).Floor == 721;
      }
      assert ShareGrams(25.0, 2594.3125, 9.0) == 648.578125 / 9.0;
      RoundTenthUnique(648.578125 / 9.0, 72.1);
    }
  }
}
