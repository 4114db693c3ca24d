/**
 The one entity of the roster cache: a player record with seven text fields,
 and the optional result the store's point lookup returns.
 */
module Records {

  /** The conventional Some/None datatype: a lookup that finds nothing yields None, not an error. */
  datatype Option<+T> = None | Some(value: T)

  /**
   A player record, generic in the type of its fields. The store holds records
   whose fields are strings (`Player`); the sheet decoder as the code writes it
   produces records whose fields are raw JSON values.
   */
  datatype Record<F> = Record(
    playerID: F,   // primary key of the store
    team: F,       // indexed, not unique
    name: F,
    surname: F,
    dob: F,        // date of birth, as the sheet gives it
    image: F,      // picture URL
    status: F      // "Clear" or "Red Carded" by convention; not validated
  )

  type Player = Record<string>

  /** The two values the status selector offers. */
  const Clear := "Clear"
  const RedCarded := "Red Carded"
}
