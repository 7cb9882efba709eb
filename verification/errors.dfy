/** Error codes of the ledger, the exception kinds its operations raise, and the
    outcome of a call that either returns a value or raises one of them. */
module Errors {

  /** The business error codes; `Code` gives each its stable number (ERR_001 .. ERR_025). */
  datatype Error =
    | ClientNotFound            // ERR_001
    | AccountNotFound           // ERR_002
    | InternalSql               // ERR_003
    | ClientNotCreated          // ERR_004
    | ClientExists              // ERR_005
    | ClientNameMissing         // ERR_006
    | CurrencyMissing           // ERR_007
    | ClientHasAccount          // ERR_008
    | AccountNotCreated         // ERR_009
    | CurrencyNotSupported      // ERR_010
    | NotAccountOwner           // ERR_011
    | AmountDiffMissing         // ERR_012
    | AccountNotUpdated         // ERR_013
    | InsufficientFunds         // ERR_014
    | SourceMissing             // ERR_015
    | DestinationMissing        // ERR_016
    | AmountMissing             // ERR_017
    | SourceNotFound            // ERR_018
    | DestinationNotFound       // ERR_019
    | SameAccount               // ERR_020
    | CurrencyMismatch          // ERR_021
    | AmountNotPositive         // ERR_022
    | DestinationUpdateFailed   // ERR_023
    | SourceUpdateFailed        // ERR_024
    | Unexpected                // ERR_025
  {
    function Code(): (n: nat)
      ensures 1 <= n <= 25
    {
      match this
      case ClientNotFound => 1
      case AccountNotFound => 2
      case InternalSql => 3
      case ClientNotCreated => 4
      case ClientExists => 5
      case ClientNameMissing => 6
      case CurrencyMissing => 7
      case ClientHasAccount => 8
      case AccountNotCreated => 9
      case CurrencyNotSupported => 10
      case NotAccountOwner => 11
      case AmountDiffMissing => 12
      case AccountNotUpdated => 13
      case InsufficientFunds => 14
      case SourceMissing => 15
      case DestinationMissing => 16
      case AmountMissing => 17
      case SourceNotFound => 18
      case DestinationNotFound => 19
      case SameAccount => 20
      case CurrencyMismatch => 21
      case AmountNotPositive => 22
      case DestinationUpdateFailed => 23
      case SourceUpdateFailed => 24
      case Unexpected => 25
    }
  }

  /** The error whose number is `n`, if there is one. */
  function FromCode(n: int): (r: Option<Error>)
    ensures r.Some? <==> 1 <= n <= 25
  {
    if n == 1 then Some(ClientNotFound)
    else if n == 2 then Some(AccountNotFound)
    else if n == 3 then Some(InternalSql)
    else if n == 4 then Some(ClientNotCreated)
    else if n == 5 then Some(ClientExists)
    else if n == 6 then Some(ClientNameMissing)
    else if n == 7 then Some(CurrencyMissing)
    else if n == 8 then Some(ClientHasAccount)
    else if n == 9 then Some(AccountNotCreated)
    else if n == 10 then Some(CurrencyNotSupported)
    else if n == 11 then Some(NotAccountOwner)
    else if n == 12 then Some(AmountDiffMissing)
    else if n == 13 then Some(AccountNotUpdated)
    else if n == 14 then Some(InsufficientFunds)
    else if n == 15 then Some(SourceMissing)
    else if n == 16 then Some(DestinationMissing)
    else if n == 17 then Some(AmountMissing)
    else if n == 18 then Some(SourceNotFound)
    else if n == 19 then Some(DestinationNotFound)
    else if n == 20 then Some(SameAccount)
    else if n == 21 then Some(CurrencyMismatch)
    else if n == 22 then Some(AmountNotPositive)
    else if n == 23 then Some(DestinationUpdateFailed)
    else if n == 24 then Some(SourceUpdateFailed)
    else if n == 25 then Some(Unexpected)
    else None
  }

  /** Every error has its own number: the numbering is a bijection onto 1..25. */
  lemma CodeRoundTrip(e: Error, n: int)
    ensures FromCode(e.Code()) == Some(e)
    ensures FromCode(n).Some? ==> FromCode(n).value.Code() == n
  {
  }

  datatype Option<+T> = None | Some(value: T)

  /** The exception kinds that reach the request worker. `Transfer` and `Business`
      carry an error code; a null dereference and anything else carry none. */
  datatype Exception =
    | Sql
    | Transfer(error: Error)
    | Business(error: Error)
    | NullPointer
    | Other

  /** A Java call either returns normally with a value or raises an exception. */
  datatype Outcome<+T> = Returned(value: T) | Threw(exc: Exception)
}
