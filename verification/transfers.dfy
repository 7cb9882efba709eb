/** The transfer endpoint: it validates the request, looks both accounts up
    without locks, compares their currencies, and only then asks the source
    account to transfer. These checks are what `transferTo` relies on. */
module Transfers {
  import opened Errors
  import opened Store
  import opened Responses
  import Accounts
  import Ledger

  /** The request body; a JSON field that is absent is `None`. */
  datatype TransferData = TransferData(src: Option<Int32>, dst: Option<Int32>, amount: Option<Int32>)

  /** `validateTransferData`: the checks run in a fixed order and the first that
      fails decides the error. */
  function ValidateTransferData(data: Option<TransferData>): (r: Option<Error>)
    ensures r.None? <==>
              && data.Some? && data.value.src.Some? && data.value.dst.Some? && data.value.amount.Some?
              && data.value.amount.value > 0 && data.value.src.value != data.value.dst.value
    ensures r == Some(SourceMissing) <==> data.None? || data.value.src.None?
    ensures r == Some(DestinationMissing) <==> data.Some? && data.value.src.Some? && data.value.dst.None?
    ensures r == Some(AmountMissing) <==>
              data.Some? && data.value.src.Some? && data.value.dst.Some? && data.value.amount.None?
    ensures r == Some(AmountNotPositive) <==>
              && data.Some? && data.value.src.Some? && data.value.dst.Some? && data.value.amount.Some?
              && data.value.amount.value <= 0
    ensures r == Some(SameAccount) <==>
              && data.Some? && data.value.src.Some? && data.value.dst.Some? && data.value.amount.Some?
              && data.value.amount.value > 0 && data.value.src.value == data.value.dst.value
  {
    if data.None? then Some(SourceMissing)
    else if data.value.src.None? then Some(SourceMissing)
    else if data.value.dst.None? then Some(DestinationMissing)
    else if data.value.amount.None? then Some(AmountMissing)
    else if data.value.amount.value <= 0 then Some(AmountNotPositive)
    else if data.value.src.value == data.value.dst.value then Some(SameAccount)
    else None
  }

  /** Whether a call on the port took a row lock. */
  predicate Locks(calls: seq<Call>)
  {
    exists i :: 0 <= i < |calls| && calls[i].SelectForUpdate?
  }

  /** The request passes validation and names two existing accounts of one currency. */
  ghost predicate Admissible(db: Db, data: Option<TransferData>)
  {
    && ValidateTransferData(data).None?
    && Accounts.TransferAllowed(db, data.value.src.value, data.value.dst.value, data.value.amount.value)
  }

  /** The operation behind `POST /transfers`, with the port's replies to the
      updates of the transfer. Validation errors come first; then an unknown
      source gives ERR_018 before the destination is looked up; an unknown
      destination gives ERR_019 and a currency mismatch ERR_021, neither reaching
      `transferTo`. The transfer is reached (it is the only step that locks rows)
      exactly when the request is admissible, and then its outcome is the
      request's outcome. The code calls `transferTo` directly; the model calls
      the guarded `Ledger.TransferChecked`, which under these checks is exactly
      `transferTo` (the last ensures below), so the request behaves as the code does. */
  function Transfer(db: Db, data: Option<TransferData>, replies: Accounts.Replies): (r: Effect<Response>)
    ensures r.db.clients == db.clients && Stable(db.accounts, r.db.accounts)
    ensures Locks(r.calls) <==> Admissible(db, data)
    ensures !Admissible(db, data) ==> r.db == db && r.out.Returned? && r.out.value.ErrorReply?
    ensures ValidateTransferData(data).Some? ==>
              r.out == Returned(ErrorReply(ValidateTransferData(data).value)) && r.calls == []
    ensures ValidateTransferData(data).None? && data.value.src.value !in db.accounts ==>
              r.out == Returned(ErrorReply(SourceNotFound)) && r.calls == [Select(AccountTable, "id")]
    ensures ValidateTransferData(data).None? && data.value.src.value in db.accounts
            && data.value.dst.value !in db.accounts ==>
              r.out == Returned(ErrorReply(DestinationNotFound))
    ensures ValidateTransferData(data).None? && data.value.src.value in db.accounts
            && data.value.dst.value in db.accounts
            && db.accounts[data.value.src.value].currency != db.accounts[data.value.dst.value].currency ==>
              r.out == Returned(ErrorReply(CurrencyMismatch))
    ensures Admissible(db, data) ==>
              var src := data.value.src.value;
              var m := Accounts.TransferTo(db, Accounts.FromRow(src, db.accounts[src]),
                                           data.value.dst.value, data.value.amount.value, replies);
              && r.db == m.db
              && r.calls == [Select(AccountTable, "id"), Select(AccountTable, "id")] + m.calls
              && (r.out == Returned(Success(NoBody)) <==> m.out.Returned?)
              && (m.out.Threw? ==> r.out == Threw(m.out.exc))
  {
    match ValidateTransferData(data)
    case Some(e) => Effect(Returned(ErrorReply(e)), db, [])
    case None =>
      var d := data.value;
      var srcCheck := Select(AccountTable, "id");
      match Accounts.GetById(db, d.src.value)
      case None => Effect(Returned(ErrorReply(SourceNotFound)), db, [srcCheck])
      case Some(srcAccount) =>
        var checks := [srcCheck, Select(AccountTable, "id")];
        match Accounts.GetById(db, d.dst.value)
        case None => Effect(Returned(ErrorReply(DestinationNotFound)), db, checks)
        case Some(dstAccount) =>
          if srcAccount.currency != dstAccount.currency then
            Effect(Returned(ErrorReply(CurrencyMismatch)), db, checks)
          else
            var m := Ledger.TransferChecked(db, srcAccount, d.dst.value, d.amount.value, replies);
            assert (checks + m.calls)[2] == m.calls[0];
            var out := if m.out.Returned? then Returned(Success(NoBody)) else Threw(m.out.exc);
            Effect(out, m.db, checks + m.calls)
  }
}
