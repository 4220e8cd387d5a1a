/** Failure-carrying types for the scraper. Every `unwrap` and every out-of-range
    index of the Rust code aborts the run; here each abort becomes an
    `Err` naming what went wrong, and `:-` propagates it. */
module Errors {

  datatype Option<+T> = None | Some(value: T)

  /** Why a run stops. The first three are layout drift in a table row, the
      fourth a damage cell whose text is not a number, the last a scraped name
      that no summary entry resolves. */
  datatype ScrapeError =
    | MissingCell(index: nat)
    | NotAnElement
    | MissingSortValue
    | ParseFailure(text: string)
    | Unresolved(name: string)

  datatype Result<+T> = Ok(value: T) | Err(error: ScrapeError) {

    predicate IsFailure() {
      Err?
    }

    function PropagateFailure<U>(): Result<U>
      requires Err?
    {
      Err(error)
    }

    function Extract(): T
      requires Ok?
    {
      value
    }
  }
}
