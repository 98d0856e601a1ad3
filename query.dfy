/** What the hosted row store hands back for one query, taken as an input to the services. */
module Query {
  import opened Nullable

  /** Either the `{ data, error }` pair a query resolves to, or an exception thrown while awaiting it. */
  datatype Response<T> =
    | Answer(data: Option<T>, error: Option<string>)
    | Threw(message: string)
  {
    /** The query reported an error or threw: the services then return an empty result. */
    predicate Failed() {
      Threw? || error.Some?
    }
  }
}
