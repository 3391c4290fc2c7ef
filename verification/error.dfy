/** The crate's error taxonomy, as far as the null stores mention it. */
module Error {

  /**
   The uninhabited error type of a store that cannot fail. Dafny has no way to
   declare a type proved empty, so `Never` is an abstract type that no member of
   this model ever constructs; that a null-store call never fails is stated by
   lemmas proving its result is `Ok`.
   */
  type Never

  /** Why an append was refused: a concurrency conflict or a backend failure. */
  datatype AppendEventsError<+E> = PreconditionFailed | Store(error: E)
}
