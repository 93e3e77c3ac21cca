/** Input rows shared by both MapReduce jobs, and a small Option type. */
module Records {

  /** One CSV row: its fields in column order. */
  type Record = seq<string>

  /** Number of fields a passenger row must have to be counted. */
  const Width: nat := 6

  /** A row takes part in the count exactly when it has `Width` fields. */
  predicate IsValid(r: Record)
  {
    |r| == Width
  }

  datatype Option<+T> = None | Some(value: T)
}
