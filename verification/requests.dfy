/** Whole requests run through the worker: what the committed ledger looks like
    after a transfer or a debit/withdrawal request, whatever the port replies and
    whether or not the commit succeeds. */
module Requests {
  import opened Errors
  import opened Store
  import opened Responses
  import opened Accounts
  import Ledger
  import Transfers
  import ClientAccounts
  import Executor

  /** A transfer request, run as one transaction, keeps the committed ledger's
      total and non-negativity in every outcome; an error reply commits nothing,
      and a success reply commits the transfer's writes. */
  lemma TransferRequestKeepsLedger(db: Db, data: Option<Transfers.TransferData>, replies: Replies,
                                   conn: Executor.Connection, commits: bool)
    requires NonNegative(db.accounts)
    ensures var op := Transfers.Transfer(db, data, replies);
            var r := Executor.Run(db, conn, op, commits);
            && Total(r.committed.accounts) == Total(db.accounts)
            && NonNegative(r.committed.accounts)
            && (r.response.ErrorReply? ==> r.committed == db)
  {
  }

  /** A debit or withdrawal request, run as one transaction, never commits a
      negative balance, and changes the total by exactly the requested difference
      when it succeeds and not at all otherwise. */
  lemma DebitWithdrawRequestKeepsLedger(db: Db, clientId: int, accountId: int,
                                        data: Option<ClientAccounts.DebitWithdraw>, rows: int,
                                        conn: Executor.Connection, commits: bool)
    requires NonNegative(db.accounts)
    ensures var op := ClientAccounts.DebitWithdrawAccount(db, clientId, accountId, data, rows);
            var r := Executor.Run(db, conn, op, commits);
            && NonNegative(r.committed.accounts)
            && (r.response.Success? ==> Total(r.committed.accounts) == Total(db.accounts) + data.value.amountDiff.value)
            && (!r.response.Success? ==> r.committed == db)
  {
    DebitWithdrawMovesDiff(db, clientId, accountId, data, rows);
  }

  /** The debit/withdrawal operation itself, before the worker decides what to
      commit: no negative balance, a write only on success, and on success the
      total moves by the requested difference. */
  lemma DebitWithdrawMovesDiff(db: Db, clientId: int, accountId: int,
                               data: Option<ClientAccounts.DebitWithdraw>, rows: int)
    requires NonNegative(db.accounts)
    ensures var op := ClientAccounts.DebitWithdrawAccount(db, clientId, accountId, data, rows);
            && NonNegative(op.db.accounts)
            && (op.db != db ==> op.out.Returned? && op.out.value.Success?)
            && (op.out.Returned? && op.out.value.Success? ==>
                  Total(op.db.accounts) == Total(db.accounts) + data.value.amountDiff.value)
  {
    var op := ClientAccounts.DebitWithdrawAccount(db, clientId, accountId, data, rows);
    if ClientAccounts.ValidateDebitWithdraw(data).None? && accountId in db.accounts
       && db.accounts[accountId].clientId == clientId {
      var account := GetById(db, accountId).value;
      var diff := data.value.amountDiff.value;
      Ledger.UpdateAmountKeepsNonNegative(db, account, diff, rows);
      if op.out.Returned? && op.out.value.Success? {
        var row := db.accounts[accountId];
        TotalReplace(db.accounts, accountId, row.(amount := row.amount + diff));
        assert op.db.accounts == db.accounts[accountId := row.(amount := row.amount + diff)];
      }
    }
  }

  /** A transfer of more than the source holds is answered with ERR_014 and
      commits nothing. */
  lemma OverdrawnTransferReportsInsufficientFunds(db: Db, data: Option<Transfers.TransferData>, replies: Replies,
                                                  commits: bool)
    requires NonNegative(db.accounts)
    requires Transfers.Admissible(db, data)
    requires data.value.amount.value > Balance(db, data.value.src.value)
    ensures var r := Executor.Run(db, Executor.Opened, Transfers.Transfer(db, data, replies), commits);
            r.response == ErrorReply(InsufficientFunds) && r.committed == db
  {
  }
}
