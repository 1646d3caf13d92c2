/** The roster entity shared by the form and the list. */
module Roster {

  datatype Option<+T> = None | Some(value: T)

  /** A person record: `id` is `None` while the record has never been saved
      under an identifier (the source's `null`). The optional fields of the
      source type (lastName, firstName, email, school, schoolEndDate,
      avatarUrl) play no part in the logic modelled here and are omitted. */
  datatype User = User(
    id: Option<string>,
    name: string,
    gender: string,
    birthDate: string,
    role: string)

  /** The outcome of a remote call (PUT or DELETE): the request and the
      server are outside the model, only success or failure is seen. */
  datatype Outcome = Succeeded | Failed
}
