/** Identifiers, failure-compatible wrappers and the error outcomes of the points ledger. */
module Common {

  /** Primary keys of the `member`, `stay` and `point_loan` tables. */
  type MemberId = int
  type StayId = int

  datatype Option<+T> = None | Some(value: T)

  /** Either the committed result of an operation or the reason it returned before commit. */
  datatype Result<+T> = Ok(value: T) | Err(error: Error)

  /** The error responses the routes return; each one leaves the tables as they were. */
  datatype Error =
    | NotFound                       // get_or_404 / query.get returned nothing
    | InvalidStatus                  // a stay status other than "planned" or "booked"
    | Shortfall(member: MemberId, useYear: int, needed: int, available: int)
    | InsufficientPoints             // a loan, repayment or transfer source is short
    | InvalidAmount                  // bank_points: no regular row, or more than it holds
    | ShareMismatch                  // shares of a new stay do not add up to its cost
    | MissingField                   // a KeyError while reading a request share
    | AlreadyRepaid
    | NothingToUndo
    | AlreadyUndone
    | BankedRowMissing
    | BadDescription
    | NotEnoughBanked
    | NotBooked
    | CannotUndo(actionType: string)
    | KeyError                       // the consolidation pass deleted a key and then used it

  function Min(a: int, b: int): int { if a <= b then a else b }
}
