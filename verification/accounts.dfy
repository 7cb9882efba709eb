/** The account entity: lookups, creation, the single-account balance update and
    the two-account transfer. Every mutation re-reads its row(s) from the store
    under a row lock (recorded as a `SelectForUpdate` call) and computes the new
    balance from what it read, not from the caller's possibly stale object. */
module Accounts {
  import opened Errors
  import opened Store
  import Clients

  /** The in-memory `Account` object: a projection of one row, whose `amount` is
      synchronised only by a successful update. */
  datatype Account = Account(id: int, clientId: int, currency: Currency, amount: Int32)

  /** The object that a read of row `id` builds. */
  function FromRow(id: int, row: AccountRow): Account
  {
    Account(id, row.clientId, row.currency, row.amount)
  }

  /** The stored balance of an existing account. */
  function Balance(db: Db, id: int): Int32
    requires id in db.accounts
  {
    db.accounts[id].amount
  }

  function Min(a: int, b: int): int { if a <= b then a else b }
  function Max(a: int, b: int): int { if a <= b then b else a }

  /** `Account.getById` (and the locking `lockById`, which reads the same row): the
      account stored under `id`, or "not found" rather than an error. */
  function GetById(db: Db, id: int): (r: Option<Account>)
    ensures r.None? <==> id !in db.accounts
    ensures r.Some? ==> r.value.id == id && FromRow(id, db.accounts[id]) == r.value
  {
    if id in db.accounts then Some(FromRow(id, db.accounts[id])) else None
  }

  /** Whether some account belongs to `clientId`. */
  ghost predicate HasAccount(accounts: map<int, AccountRow>, clientId: int)
  {
    exists id :: id in accounts && accounts[id].clientId == clientId
  }

  /** `Account.getByClient`: the account of a client, or "not found". The UNIQUE
      constraint on `client_id` makes it the only one. */
  function GetByClient(db: Db, clientId: int): (r: Option<Account>)
    requires UniqueOwners(db.accounts)
    ensures r.None? <==> !HasAccount(db.accounts, clientId)
    ensures r.Some? ==> r.value.clientId == clientId && r.value.id in db.accounts
                        && FromRow(r.value.id, db.accounts[r.value.id]) == r.value
  {
    if exists id :: id in db.accounts && db.accounts[id].clientId == clientId then
      var id :| id in db.accounts && db.accounts[id].clientId == clientId;
      Some(FromRow(id, db.accounts[id]))
    else
      None
  }

  /** The columns `create` inserts. */
  const InsertedColumns: set<string> := {"client_id", "currency", "amount", "created_date"}

  /** `Account.create(clientId, currency)` when the port's insert replies with
      `insertedId` (negative: nothing inserted). The client must exist (ERR_001)
      and must not own an account yet (ERR_008); both checks come before the
      insert, which writes an amount of 0. */
  function Create(db: Db, clientId: int, currency: Currency, insertedId: int): (r: Effect<Option<Account>>)
    requires Valid(db)
    requires insertedId < 0 || insertedId !in db.accounts
    ensures Valid(r.db)
    ensures r.db.clients == db.clients
    ensures Stable(db.accounts, r.db.accounts)
    ensures r.out == Threw(Business(ClientNotFound)) <==> clientId !in db.clients
    ensures r.out == Threw(Business(ClientHasAccount)) <==> clientId in db.clients && HasAccount(db.accounts, clientId)
    ensures clientId in db.clients && !HasAccount(db.accounts, clientId) ==> r.out.Returned?
    ensures r.out.Threw? ==> r.db == db && forall i :: 0 <= i < |r.calls| ==> !r.calls[i].Insert?
    ensures r.out.Returned? ==>
              r.calls == [Select(ClientTable, "id"), Select(AccountTable, "client_id"), Insert(AccountTable, InsertedColumns)]
    ensures r.out.Returned? && insertedId < 0 ==> r.out.value.None? && r.db == db
    ensures r.out.Returned? && insertedId >= 0 ==>
              && r.out.value == Some(Account(insertedId, clientId, currency, 0))
              && r.db.accounts == db.accounts[insertedId := AccountRow(clientId, currency, 0)]
  {
    var clientCheck := Select(ClientTable, "id");
    if Clients.GetById(db, clientId).None? then
      Effect(Threw(Business(ClientNotFound)), db, [clientCheck])
    else
      var accountCheck := Select(AccountTable, "client_id");
      if GetByClient(db, clientId).Some? then
        Effect(Threw(Business(ClientHasAccount)), db, [clientCheck, accountCheck])
      else
        var calls := [clientCheck, accountCheck, Insert(AccountTable, InsertedColumns)];
        if insertedId < 0 then
          Effect(Returned(None), db, calls)
        else
          var db' := db.(accounts := db.accounts[insertedId := AccountRow(clientId, currency, 0)]);
          Effect(Returned(Some(Account(insertedId, clientId, currency, 0))), db', calls)
  }

  // ---------------------------------------------------------------------------
  // Balance updates.

  /** A mutation of an account: its outcome, the caller's object afterwards (only a
      successful update changes its amount), the state and the calls made. */
  datatype Mutation<+T> = Mutation(out: Outcome<T>, self: Account, db: Db, calls: seq<Call>)

  /** The write part of `updateAmount`, shared by both overloads: from the amount
      `base` that was read, compute `base + diff` as a Java `int`; a negative
      result raises ERR_014 with no write; otherwise only the `amount` column of
      `self.id` is updated, and the object is synchronised exactly when the port
      reports one row affected. The overload without the lock reads `base` from the
      object itself. */
  function Adjust(db: Db, self: Account, base: Int32, diff: Int32, rows: int): (r: Mutation<bool>)
    ensures r.db.clients == db.clients
    ensures Stable(db.accounts, r.db.accounts) && r.db.accounts.Keys == db.accounts.Keys
    ensures r.out.Threw? <==> Wrap32(base + diff) < 0
    ensures base >= 0 ==> (r.out.Threw? <==> base + diff < 0 || base + diff > INT_MAX)
    ensures r.out.Threw? ==> r.out.exc == Transfer(InsufficientFunds) && r.self == self && r.db == db && r.calls == []
    ensures r.out.Returned? ==>
              && r.out.value == (rows == 1)
              && r.calls == [Update(AccountTable, self.id, map["amount" := Wrap32(base + diff)])]
    ensures r.out.Returned? && base >= 0 ==> Wrap32(base + diff) == base + diff
    ensures r.out == Returned(false) ==> r.self == self && r.db == db
    ensures r.out == Returned(true) ==>
              && r.self == self.(amount := Wrap32(base + diff))
              && (self.id in db.accounts ==> r.db.accounts[self.id].amount == Wrap32(base + diff))
              && (forall k :: k in db.accounts && k != self.id ==> r.db.accounts[k] == db.accounts[k])
  {
    var newAmount := Wrap32(base + diff);
    assert base >= 0 ==> (newAmount >= 0 <==> 0 <= base + diff <= INT_MAX) by {
      if base >= 0 { WrapNonNegative(base, diff); }
    }
    if newAmount < 0 then
      Mutation(Threw(Transfer(InsufficientFunds)), self, db, [])
    else
      var write := Update(AccountTable, self.id, map["amount" := newAmount]);
      var db' := db.(accounts := ApplyUpdate(db.accounts, self.id, newAmount, rows));
      if rows == 1 then Mutation(Returned(true), self.(amount := newAmount), db', [write])
      else Mutation(Returned(false), self, db', [write])
  }

  /** The public `updateAmount(diff)` when the port's update reports `rows` rows
      affected. It locks and re-reads the row, then adds `diff` to the STORED
      amount, not to the caller's copy. */
  function UpdateAmount(db: Db, self: Account, diff: Int32, rows: int): (r: Mutation<bool>)
    ensures r.db.clients == db.clients
    ensures Stable(db.accounts, r.db.accounts) && r.db.accounts.Keys == db.accounts.Keys
    ensures |r.calls| >= 1 && r.calls[0] == SelectForUpdate(AccountTable, self.id)
    ensures r.out.Threw? ==> r.self == self && r.db == db
    ensures self.id !in db.accounts ==> r.out == Threw(NullPointer)
    ensures self.id in db.accounts && Balance(db, self.id) >= 0 ==>
              var stored := Balance(db, self.id);
              && (r.out == Threw(Transfer(InsufficientFunds)) <==> stored + diff < 0 || stored + diff > INT_MAX)
              && (r.out.Threw? ==> r.calls == [SelectForUpdate(AccountTable, self.id)])
              && (r.out == Returned(true) <==> 0 <= stored + diff <= INT_MAX && rows == 1)
              && (r.out == Returned(false) <==> 0 <= stored + diff <= INT_MAX && rows != 1)
              && (r.out.Returned? ==>
                    r.calls == [SelectForUpdate(AccountTable, self.id), Update(AccountTable, self.id, map["amount" := stored + diff])])
              && (r.out == Returned(true) ==>
                    r.self == self.(amount := stored + diff) && Balance(r.db, self.id) == stored + diff)
              && (r.out == Returned(false) ==> r.self == self && r.db == db)
    ensures forall k :: k in db.accounts && k != self.id ==> r.db.accounts[k] == db.accounts[k]
  {
    var lock := SelectForUpdate(AccountTable, self.id);
    match GetById(db, self.id)
    case None => Mutation(Threw(NullPointer), self, db, [lock])
    case Some(locked) =>
      var m := Adjust(db, self, locked.amount, diff, rows);
      m.(calls := [lock] + m.calls)
  }

  // ---------------------------------------------------------------------------
  // Transfers.

  /** The port's replies to the three updates a transfer may issue: the debit of
      the source, the credit of the destination and the compensating re-credit. */
  datatype Replies = Replies(debit: int, credit: int, recredit: int)

  /** The two row locks of a transfer, lowest id first whichever side is the source. */
  function LockOrder(srcId: int, dstId: int): (r: seq<Call>)
    ensures r == [SelectForUpdate(AccountTable, Min(srcId, dstId)), SelectForUpdate(AccountTable, Max(srcId, dstId))]
  {
    if srcId > dstId then [SelectForUpdate(AccountTable, dstId), SelectForUpdate(AccountTable, srcId)]
    else [SelectForUpdate(AccountTable, srcId), SelectForUpdate(AccountTable, dstId)]
  }

  /** `transferTo(dstId, amount)` on the object `self` exactly as written: no check
      of its own. Both rows are locked (ascending id) and re-read; the source is
      debited from its locked copy, then the destination credited from its locked
      copy; if the credit reports no row affected, the source is re-credited and
      ERR_023 raised; a failed debit raises ERR_024. A missing row is dereferenced
      as null. Only a successful transfer synchronises `self`. */
  function TransferSteps(db: Db, self: Account, dstId: int, amount: Int32, replies: Replies): (r: Mutation<()>)
    ensures r.db.clients == db.clients
    ensures Stable(db.accounts, r.db.accounts) && r.db.accounts.Keys == db.accounts.Keys
    ensures forall k :: k in db.accounts && k != self.id && k != dstId ==> r.db.accounts[k] == db.accounts[k]
    ensures |r.calls| >= 2 && r.calls[..2] == LockOrder(self.id, dstId)
    ensures forall i :: 2 <= i < |r.calls| ==> r.calls[i].Update?
    ensures r.out.Threw? ==> r.self == self
  {
    var m := TransferWrites(db, self, dstId, amount, replies);
    assert forall i :: 0 <= i < |m.calls| ==> m.calls[i] in m.calls;
    m.(calls := LockOrder(self.id, dstId) + m.calls)
  }

  /** What `transferTo` does once both rows are locked: the updates it issues,
      in order, and their effect. */
  function TransferWrites(db: Db, self: Account, dstId: int, amount: Int32, replies: Replies): (r: Mutation<()>)
    ensures r.db.clients == db.clients
    ensures Stable(db.accounts, r.db.accounts) && r.db.accounts.Keys == db.accounts.Keys
    ensures forall k :: k in db.accounts && k != self.id && k != dstId ==> r.db.accounts[k] == db.accounts[k]
    ensures forall c :: c in r.calls ==> c.Update?
    ensures r.out.Threw? ==> r.self == self
  {
    var srcLocked := GetById(db, self.id);
    var dstLocked := GetById(db, dstId);
    if srcLocked.None? then
      Mutation(Threw(NullPointer), self, db, [])
    else
      var src := srcLocked.value;
      var debit := Adjust(db, src, src.amount, Wrap32(0 - amount as int), replies.debit);
      if debit.out.Threw? then
        Mutation(Threw(debit.out.exc), self, debit.db, debit.calls)
      else if !debit.out.value then
        Mutation(Threw(Transfer(SourceUpdateFailed)), self, debit.db, debit.calls)
      else if dstLocked.None? then
        Mutation(Threw(NullPointer), self, debit.db, debit.calls)
      else
        var dst := dstLocked.value;
        var credit := Adjust(debit.db, dst, dst.amount, amount, replies.credit);
        var calls := debit.calls + credit.calls;
        if credit.out.Threw? then
          Mutation(Threw(credit.out.exc), self, credit.db, calls)
        else if !credit.out.value then
          var debited := debit.self;
          var back := Adjust(credit.db, debited, debited.amount, amount, replies.recredit);
          if back.out.Threw? then
            Mutation(Threw(back.out.exc), self, back.db, calls + back.calls)
          else
            Mutation(Threw(Transfer(DestinationUpdateFailed)), self, back.db, calls + back.calls)
        else
          Mutation(Returned(()), self.(amount := debit.self.amount), credit.db, calls)
  }

  /** What a caller of `transferTo` must establish (the transfer resource checks it
      before the call): two different existing accounts of one currency and a
      positive amount. */
  ghost predicate TransferAllowed(db: Db, srcId: int, dstId: int, amount: int)
  {
    && srcId in db.accounts && dstId in db.accounts
    && srcId != dstId
    && db.accounts[srcId].currency == db.accounts[dstId].currency
    && amount > 0
  }

  /** `transferTo` under its callers' guarantee. With non-negative balances A of
      the source and B of the destination, and amount x:
      - it succeeds iff x <= A, B + x fits in an `int`, and both updates report one
        row; then the source holds A - x, the destination B + x, `self` holds A - x
        and the port saw exactly: lock low id, lock high id, write source, write
        destination;
      - x > A raises ERR_014 and writes nothing;
      - a debit reporting no row raises ERR_024 and changes nothing;
      - a credit that would overflow raises ERR_014 after the debit was written;
      - a credit reporting no row raises ERR_023 after writing A back to the source
        (which holds A again iff that write reports one row);
      - on every failure `self` is unchanged. */
  function TransferTo(db: Db, self: Account, dstId: int, amount: Int32, replies: Replies): (r: Mutation<()>)
    requires TransferAllowed(db, self.id, dstId, amount)
    ensures r.db.clients == db.clients && Stable(db.accounts, r.db.accounts) && r.db.accounts.Keys == db.accounts.Keys
    ensures forall k :: k in db.accounts && k != self.id && k != dstId ==> r.db.accounts[k] == db.accounts[k]
    ensures |r.calls| >= 2 && r.calls[..2] == LockOrder(self.id, dstId)
    ensures r.out.Threw? ==> r.self == self
    ensures Balance(db, self.id) >= 0 && Balance(db, dstId) >= 0 ==>
              var A := Balance(db, self.id);
              var B := Balance(db, dstId);
              && (r.out.Returned? <==> amount <= A && B + amount <= INT_MAX && replies.debit == 1 && replies.credit == 1)
              && (r.out.Returned? ==>
                    && Balance(r.db, self.id) == A - amount
                    && Balance(r.db, dstId) == B + amount
                    && r.self == self.(amount := A - amount)
                    && r.calls == LockOrder(self.id, dstId) + [
                         Update(AccountTable, self.id, map["amount" := A - amount]),
                         Update(AccountTable, dstId, map["amount" := B + amount])])
              && (amount > A ==> r.out == Threw(Transfer(InsufficientFunds)) && r.db == db)
              && (amount <= A && replies.debit != 1 ==> r.out == Threw(Transfer(SourceUpdateFailed)) && r.db == db)
              && (amount <= A && replies.debit == 1 && B + amount > INT_MAX ==>
                    && r.out == Threw(Transfer(InsufficientFunds))
                    && Balance(r.db, self.id) == A - amount && Balance(r.db, dstId) == B)
              && (amount <= A && replies.debit == 1 && B + amount <= INT_MAX && replies.credit != 1 ==>
                    && r.out == Threw(Transfer(DestinationUpdateFailed))
                    && Balance(r.db, dstId) == B
                    && Balance(r.db, self.id) == (if replies.recredit == 1 then A else A - amount)
                    && r.calls[|r.calls| - 1] == Update(AccountTable, self.id, map["amount" := A]))
  {
    if Balance(db, self.id) >= 0 && Balance(db, dstId) >= 0 then
      TransferStepsCases(db, self, dstId, amount, replies);
      TransferSteps(db, self, dstId, amount, replies)
    else
      TransferSteps(db, self, dstId, amount, replies)
  }

  /** The cases of `TransferTo`'s contract, one lemma per way the transfer ends. */
  lemma TransferStepsCases(db: Db, self: Account, dstId: int, amount: Int32, replies: Replies)
    requires TransferAllowed(db, self.id, dstId, amount)
    requires Balance(db, self.id) >= 0 && Balance(db, dstId) >= 0
    ensures var r := TransferSteps(db, self, dstId, amount, replies);
            var A := Balance(db, self.id);
            var B := Balance(db, dstId);
            && (r.out.Returned? <==> amount <= A && B + amount <= INT_MAX && replies.debit == 1 && replies.credit == 1)
            && (r.out.Returned? ==>
                  && Balance(r.db, self.id) == A - amount
                  && Balance(r.db, dstId) == B + amount
                  && r.self == self.(amount := A - amount)
                  && r.calls == LockOrder(self.id, dstId) + [
                       Update(AccountTable, self.id, map["amount" := A - amount]),
                       Update(AccountTable, dstId, map["amount" := B + amount])])
            && (amount > A ==> r.out == Threw(Transfer(InsufficientFunds)) && r.db == db)
            && (amount <= A && replies.debit != 1 ==> r.out == Threw(Transfer(SourceUpdateFailed)) && r.db == db)
            && (amount <= A && replies.debit == 1 && B + amount > INT_MAX ==>
                  && r.out == Threw(Transfer(InsufficientFunds))
                  && Balance(r.db, self.id) == A - amount && Balance(r.db, dstId) == B)
            && (amount <= A && replies.debit == 1 && B + amount <= INT_MAX && replies.credit != 1 ==>
                  && r.out == Threw(Transfer(DestinationUpdateFailed))
                  && Balance(r.db, dstId) == B
                  && Balance(r.db, self.id) == (if replies.recredit == 1 then A else A - amount)
                  && r.calls[|r.calls| - 1] == Update(AccountTable, self.id, map["amount" := A]))
  {
    var A := Balance(db, self.id);
    var B := Balance(db, dstId);
    if amount > A || replies.debit != 1 {
      TransferFailsBeforeCredit(db, self, dstId, amount, replies);
    } else if B + amount > INT_MAX {
      TransferCreditOverflows(db, self, dstId, amount, replies);
    } else if replies.credit != 1 {
      TransferCreditFails(db, self, dstId, amount, replies);
    } else {
      TransferSucceeds(db, self, dstId, amount, replies);
    }
  }

  /** Too large an amount, or a debit that reports no row: nothing is stored. */
  lemma TransferFailsBeforeCredit(db: Db, self: Account, dstId: int, amount: Int32, replies: Replies)
    requires TransferAllowed(db, self.id, dstId, amount)
    requires Balance(db, self.id) >= 0
    requires amount > Balance(db, self.id) || replies.debit != 1
    ensures var r := TransferSteps(db, self, dstId, amount, replies);
            && r.db == db
            && r.out == Threw(Transfer(if amount > Balance(db, self.id) then InsufficientFunds else SourceUpdateFailed))
  {
    assert Wrap32(0 - amount as int) == 0 - amount;
  }

  /** A credit past `int`: the debit stays written. */
  lemma TransferCreditOverflows(db: Db, self: Account, dstId: int, amount: Int32, replies: Replies)
    requires TransferAllowed(db, self.id, dstId, amount)
    requires 0 <= Balance(db, dstId) && amount <= Balance(db, self.id) && replies.debit == 1
    requires Balance(db, dstId) + amount > INT_MAX
    ensures var r := TransferSteps(db, self, dstId, amount, replies);
            && r.out == Threw(Transfer(InsufficientFunds))
            && Balance(r.db, self.id) == Balance(db, self.id) - amount
            && Balance(r.db, dstId) == Balance(db, dstId)
  {
    assert Wrap32(0 - amount as int) == 0 - amount;
  }

  /** A credit that reports no row: the source is written back. */
  lemma TransferCreditFails(db: Db, self: Account, dstId: int, amount: Int32, replies: Replies)
    requires TransferAllowed(db, self.id, dstId, amount)
    requires 0 <= Balance(db, dstId) && amount <= Balance(db, self.id) && replies.debit == 1
    requires Balance(db, dstId) + amount <= INT_MAX && replies.credit != 1
    ensures var r := TransferSteps(db, self, dstId, amount, replies);
            var A := Balance(db, self.id);
            && r.out == Threw(Transfer(DestinationUpdateFailed))
            && Balance(r.db, dstId) == Balance(db, dstId)
            && Balance(r.db, self.id) == (if replies.recredit == 1 then A else A - amount)
            && r.calls[|r.calls| - 1] == Update(AccountTable, self.id, map["amount" := A])
  {
    assert Wrap32(0 - amount as int) == 0 - amount;
  }

  /** Both updates report one row: the amount moves and `self` follows the source. */
  lemma TransferSucceeds(db: Db, self: Account, dstId: int, amount: Int32, replies: Replies)
    requires TransferAllowed(db, self.id, dstId, amount)
    requires 0 <= Balance(db, dstId) && amount <= Balance(db, self.id)
    requires Balance(db, dstId) + amount <= INT_MAX && replies.debit == 1 && replies.credit == 1
    ensures var r := TransferSteps(db, self, dstId, amount, replies);
            var A := Balance(db, self.id);
            var B := Balance(db, dstId);
            && r.out.Returned?
            && Balance(r.db, self.id) == A - amount
            && Balance(r.db, dstId) == B + amount
            && r.self == self.(amount := A - amount)
            && r.calls == LockOrder(self.id, dstId) + [
                 Update(AccountTable, self.id, map["amount" := A - amount]),
                 Update(AccountTable, dstId, map["amount" := B + amount])]
  {
    assert Wrap32(0 - amount as int) == 0 - amount;
  }
}
