/** The four quantities the tracker follows, as a record over exact reals: the daily
    goal has this shape, and so do the per-field totals and progress values. */
module Nutrients {

  /** `kcal`, `protein`, `carbs`, `fat`: the keys the goal card iterates over. */
  datatype Field = Kcal | Protein | Carbs | Fat

  /** The object key of a field. */
  function Key(f: Field): string {
    match f
    case Kcal => "kcal"
    case Protein => "protein"
    case Carbs => "carbs"
    case Fat => "fat"
  }

  datatype Macros = Macros(kcal: real, protein: real, carbs: real, fat: real) {
    /** `goal[k]` */
    function Get(f: Field): real {
      match f
      case Kcal => kcal
      case Protein => protein
      case Carbs => carbs
      case Fat => fat
    }

    /** `{...goal, [k]: x}`: field `f` takes `x`, the other three keep their values. */
    function With(f: Field, x: real): (m: Macros)
      ensures m.Get(f) == x
      ensures forall g :: g != f ==> m.Get(g) == Get(g)
    {
      match f
      case Kcal => this.(kcal := x)
      case Protein => this.(protein := x)
      case Carbs => this.(carbs := x)
      case Fat => this.(fat := x)
    }
  }

  /** The goal a fresh session starts with (source lines 49-54). */
  const DefaultGoal: Macros := Macros(2200.0, 120.0, 250.0, 70.0)
}
