/** Ledger-wide properties of the account operations: balances never go
    negative, transfers move money without creating or destroying it, and
    mutations do not depend on the caller's stale copy of an account. It also
    holds the self-transfer defect of `transferTo` and the guarded transfer that
    avoids it. */
module Ledger {
  import opened Errors
  import opened Store
  import opened Accounts

  // ---------------------------------------------------------------------------
  // No balance goes negative.

  /** A single write of a balance never stores a negative amount. */
  lemma AdjustKeepsNonNegative(db: Db, self: Account, base: Int32, diff: Int32, rows: int)
    requires NonNegative(db.accounts)
    ensures NonNegative(Adjust(db, self, base, diff, rows).db.accounts)
  {
  }

  /** `updateAmount` keeps every balance non-negative, whatever the port replies. */
  lemma UpdateAmountKeepsNonNegative(db: Db, self: Account, diff: Int32, rows: int)
    requires NonNegative(db.accounts)
    ensures NonNegative(UpdateAmount(db, self, diff, rows).db.accounts)
  {
  }

  /** `transferTo`, even unguarded and in every outcome including the failed and
      compensated ones, keeps every balance non-negative. */
  lemma TransferStepsKeepsNonNegative(db: Db, self: Account, dstId: int, amount: Int32, replies: Replies)
    requires NonNegative(db.accounts)
    ensures NonNegative(TransferSteps(db, self, dstId, amount, replies).db.accounts)
  {
    if self.id in db.accounts {
      var src := GetById(db, self.id).value;
      var debit := Adjust(db, src, src.amount, Wrap32(0 - amount as int), replies.debit);
      AdjustKeepsNonNegative(db, src, src.amount, Wrap32(0 - amount as int), replies.debit);
      if dstId in db.accounts {
        var dst := GetById(db, dstId).value;
        var credit := Adjust(debit.db, dst, dst.amount, amount, replies.credit);
        AdjustKeepsNonNegative(debit.db, dst, dst.amount, amount, replies.credit);
        AdjustKeepsNonNegative(credit.db, debit.self, debit.self.amount, amount, replies.recredit);
      }
    }
  }

  // ---------------------------------------------------------------------------
  // Money is conserved.

  /** A successful transfer between two different accounts leaves the sum of all
      balances unchanged, and moves exactly `amount`. */
  lemma {:induction false} TransferToConservesTotal(db: Db, self: Account, dstId: int, amount: Int32, replies: Replies)
    requires TransferAllowed(db, self.id, dstId, amount)
    requires NonNegative(db.accounts)
    ensures var r := TransferTo(db, self, dstId, amount, replies);
            r.out.Returned? ==> Total(r.db.accounts) == Total(db.accounts) && NonNegative(r.db.accounts)
  {
    var r := TransferTo(db, self, dstId, amount, replies);
    TransferStepsKeepsNonNegative(db, self, dstId, amount, replies);
    if r.out.Returned? {
      var A := Balance(db, self.id);
      var B := Balance(db, dstId);
      var srcRow := db.accounts[self.id].(amount := A - amount);
      var dstRow := db.accounts[dstId].(amount := B + amount);
      var mid := db.accounts[self.id := srcRow];
      TotalReplace(db.accounts, self.id, srcRow);
      TotalReplace(mid, dstId, dstRow);
      assert r.db.accounts[self.id] == srcRow && r.db.accounts[dstId] == dstRow;
      assert r.db.accounts == mid[dstId := dstRow];
    }
  }

  /** Opening an account adds a row holding 0: the total is unchanged and no
      balance is negative. */
  lemma CreateKeepsTotal(db: Db, clientId: int, currency: Currency, insertedId: int)
    requires Valid(db) && NonNegative(db.accounts)
    requires insertedId < 0 || insertedId !in db.accounts
    ensures var r := Accounts.Create(db, clientId, currency, insertedId);
            Total(r.db.accounts) == Total(db.accounts) && NonNegative(r.db.accounts)
  {
    var r := Accounts.Create(db, clientId, currency, insertedId);
    if r.db != db {
      TotalInsert(db.accounts, insertedId, AccountRow(clientId, currency, 0));
    }
  }

  // ---------------------------------------------------------------------------
  // Stale copies do not matter.

  /** `updateAmount` re-reads the row under a lock: two copies of the same
      account, however stale their amounts, lead to the same outcome, writes and
      calls. */
  lemma UpdateIgnoresStaleCopy(db: Db, a: Account, b: Account, diff: Int32, rows: int)
    requires a.id == b.id
    ensures var ra := UpdateAmount(db, a, diff, rows);
            var rb := UpdateAmount(db, b, diff, rows);
            ra.out == rb.out && ra.db == rb.db && ra.calls == rb.calls
  {
  }

  /** `transferTo` computes both new balances from the locked rows: the amount in
      the caller's copy of the source plays no part in what is written. */
  lemma TransferIgnoresStaleCopy(db: Db, a: Account, b: Account, dstId: int, amount: Int32, replies: Replies)
    requires a.id == b.id
    ensures var ra := TransferSteps(db, a, dstId, amount, replies);
            var rb := TransferSteps(db, b, dstId, amount, replies);
            ra.out == rb.out && ra.db == rb.db && ra.calls == rb.calls
  {
  }

  /** Two transfers between the same two accounts, in either direction, take the
      row locks in the same order, lowest id first, so they cannot deadlock on them. */
  lemma LockOrderSymmetric(a: int, b: int)
    ensures LockOrder(a, b) == LockOrder(b, a)
    ensures a != b ==> LockOrder(a, b)[0].id < LockOrder(a, b)[1].id
  {
  }

  /** The transfer resource checks its guards without locks, before `transferTo`
      re-reads the rows under locks. No step removes a row or changes anything but
      an amount, so guards that held at the check still hold at the re-read. */
  lemma GuardsSurviveInterleaving(before: Db, after: Db, srcId: int, dstId: int, amount: int)
    requires TransferAllowed(before, srcId, dstId, amount)
    requires Stable(before.accounts, after.accounts)
    ensures TransferAllowed(after, srcId, dstId, amount)
  {
  }

  /** However many requests commit between the unlocked check and the locked
      re-read, guards that held at the check still hold at the re-read. */
  lemma GuardsSurviveSteps(states: seq<Db>, srcId: int, dstId: int, amount: int)
    requires |states| >= 1
    requires forall i :: 0 <= i < |states| - 1 ==> Stable(states[i].accounts, states[i + 1].accounts)
    requires TransferAllowed(states[0], srcId, dstId, amount)
    ensures TransferAllowed(states[|states| - 1], srcId, dstId, amount)
  {
    var rows := seq(|states|, i requires 0 <= i < |states| => states[i].accounts);
    StableAlong(rows);
    GuardsSurviveInterleaving(states[0], states[|states| - 1], srcId, dstId, amount);
  }

  /** The converse holds only when no account was opened in between: then a
      guard that fails without locks also fails at the locked re-read. An account
      inserted in between would pass only at the re-read. */
  lemma GuardsFailingStayFailing(before: Db, after: Db, srcId: int, dstId: int, amount: int)
    requires Stable(before.accounts, after.accounts)
    requires after.accounts.Keys == before.accounts.Keys
    requires TransferAllowed(after, srcId, dstId, amount)
    ensures TransferAllowed(before, srcId, dstId, amount)
  {
  }

  // ---------------------------------------------------------------------------
  // Transfer to the same account.

  /** `transferTo` aimed at its own account: both locked copies hold A; the debit
      writes A - x and the credit then writes A + x from its own copy, so the
      account gains x and the ledger grows by x. */
  lemma SelfTransferCreatesMoney(db: Db, self: Account, amount: Int32)
    requires self.id in db.accounts
    requires 0 < amount <= Balance(db, self.id)
    requires Balance(db, self.id) + amount <= INT_MAX
    ensures var r := TransferSteps(db, self, self.id, amount, Replies(1, 1, 1));
            && r.out.Returned?
            && Balance(r.db, self.id) == Balance(db, self.id) + amount
            && Total(r.db.accounts) == Total(db.accounts) + amount
  {
    var A := Balance(db, self.id);
    var r := TransferSteps(db, self, self.id, amount, Replies(1, 1, 1));
    assert Wrap32(0 - amount as int) == 0 - amount;
    WrapNonNegative(A, 0 - amount);
    WrapNonNegative(A, amount);
    assert r.db.accounts == db.accounts[self.id := db.accounts[self.id].(amount := A + amount)];
    TotalReplace(db.accounts, self.id, db.accounts[self.id].(amount := A + amount));
  }

  /** `transferTo` with the checks it is evidently meant to make itself (its own
      unit tests expect ERR_020 for the same account, ERR_019 for an unknown
      destination and ERR_021 for different currencies), made before any lock is
      taken; an unknown source gives ERR_018 and a non-positive amount ERR_022. */
  function TransferChecked(db: Db, self: Account, dstId: int, amount: Int32, replies: Replies): (r: Mutation<()>)
    ensures r.db.clients == db.clients && Stable(db.accounts, r.db.accounts)
    ensures dstId == self.id ==> r.out == Threw(Transfer(SameAccount)) && r.db == db
    ensures dstId != self.id && self.id in db.accounts && dstId !in db.accounts ==>
              r.out == Threw(Transfer(DestinationNotFound)) && r.db == db
    ensures dstId != self.id && self.id in db.accounts && dstId in db.accounts
            && db.accounts[self.id].currency != db.accounts[dstId].currency ==>
              r.out == Threw(Transfer(CurrencyMismatch)) && r.db == db
    ensures !TransferAllowed(db, self.id, dstId, amount) ==> r.out.Threw? && r.db == db && r.calls == []
    ensures TransferAllowed(db, self.id, dstId, amount) ==> r == TransferTo(db, self, dstId, amount, replies)
    ensures NonNegative(db.accounts) ==> NonNegative(r.db.accounts)
    ensures NonNegative(db.accounts) && r.out.Returned? ==> Total(r.db.accounts) == Total(db.accounts)
  {
    if dstId == self.id then Mutation(Threw(Transfer(SameAccount)), self, db, [])
    else if self.id !in db.accounts then Mutation(Threw(Transfer(SourceNotFound)), self, db, [])
    else if dstId !in db.accounts then Mutation(Threw(Transfer(DestinationNotFound)), self, db, [])
    else if db.accounts[self.id].currency != db.accounts[dstId].currency then
      Mutation(Threw(Transfer(CurrencyMismatch)), self, db, [])
    else if amount <= 0 then Mutation(Threw(Transfer(AmountNotPositive)), self, db, [])
    else
      var r := TransferTo(db, self, dstId, amount, replies);
      assert NonNegative(db.accounts) ==> NonNegative(r.db.accounts) && (r.out.Returned? ==> Total(r.db.accounts) == Total(db.accounts)) by {
        if NonNegative(db.accounts) {
          TransferToConservesTotal(db, self, dstId, amount, replies);
        }
      }
      r
  }

  /** The unit test's transfer: 10 from account 1 (100) to account 2 (100), both in
      roubles, with every update reporting one row. */
  lemma TransferExample()
    ensures var db := Db(map[1 := "a", 2 := "b"],
                         map[1 := AccountRow(1, RUB, 100), 2 := AccountRow(2, RUB, 100)]);
            var r := TransferTo(db, Account(1, 1, RUB, 100), 2, 10, Replies(1, 1, 1));
            && r.out.Returned? && r.self.amount == 90
            && Balance(r.db, 1) == 90 && Balance(r.db, 2) == 110
            && r.calls == [SelectForUpdate(AccountTable, 1), SelectForUpdate(AccountTable, 2),
                           Update(AccountTable, 1, map["amount" := 90]), Update(AccountTable, 2, map["amount" := 110])]
  {
  }
}
