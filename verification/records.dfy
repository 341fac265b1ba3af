/** The appointment table, one row per appointment, as the dashboard keeps it
    in memory once the CSV has been loaded and the weekday column derived. */
module Records {

  /** One appointment. `noShow` holds the raw flag text ("Yes" when the
      patient did not come, "No" when they did); the four chronic-condition
      columns hold the raw integers of the dataset (0/1, and 0..4 for Handcap). */
  datatype Record = Record(
    gender: string,
    neighbourhood: string,
    age: int,
    noShow: string,
    weekday: string,
    hipertension: int,
    diabetes: int,
    alcoholism: int,
    handcap: int)

  const Yes: string := "Yes"
  const No: string := "No"

  /** The four condition columns the chronic-condition chart melts, in the
      order they are listed to the melt. */
  datatype Condition = Hipertension | Diabetes | Alcoholism | Handcap

  const Conditions: seq<Condition> := [Hipertension, Diabetes, Alcoholism, Handcap]

  /** The column name, which becomes the `Condition` value of a melted row. */
  function ConditionName(c: Condition): string
  {
    match c
    case Hipertension => "Hipertension"
    case Diabetes => "Diabetes"
    case Alcoholism => "Alcoholism"
    case Handcap => "Handcap"
  }

  /** The value of column `c` in record `r`. */
  function ConditionValue(r: Record, c: Condition): int
  {
    match c
    case Hipertension => r.hipertension
    case Diabetes => r.diabetes
    case Alcoholism => r.alcoholism
    case Handcap => r.handcap
  }

  lemma ConditionNamesDistinct(c: Condition, d: Condition)
    ensures ConditionName(c) == ConditionName(d) <==> c == d
  {
  }
}
