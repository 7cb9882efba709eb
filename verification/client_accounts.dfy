/** The client and account endpoints: request validation, the order in which
    their checks run, and the bodies and links they answer with. */
module ClientAccounts {
  import opened Errors
  import opened Store
  import opened Responses
  import Clients
  import Accounts

  /** Request bodies; an absent JSON field is `None`, an absent body is `None` too. */
  datatype ClientData = ClientData(name: Option<string>)
  datatype AccountData = AccountData(currency: Option<string>)
  datatype DebitWithdraw = DebitWithdraw(amountDiff: Option<Int32>)

  /** `validateClientData`: a body with a name, or ERR_006. */
  function ValidateClientData(data: Option<ClientData>): (r: Option<Error>)
    ensures r.Some? <==> data.None? || data.value.name.None?
    ensures r.Some? ==> r.value == ClientNameMissing
  {
    if data.None? then Some(ClientNameMissing)
    else if data.value.name.None? then Some(ClientNameMissing)
    else None
  }

  /** `validateAccountData`: a body with a currency (else ERR_007) that names a
      currency constant (else ERR_010). */
  function ValidateAccountData(data: Option<AccountData>): (r: Option<Error>)
    ensures r == Some(CurrencyMissing) <==> data.None? || data.value.currency.None?
    ensures r == Some(CurrencyNotSupported) <==>
              data.Some? && data.value.currency.Some? && ParseCurrency(data.value.currency.value).None?
    ensures r.None? <==>
              data.Some? && data.value.currency.Some? && ParseCurrency(data.value.currency.value).Some?
  {
    if data.None? then Some(CurrencyMissing)
    else if data.value.currency.None? then Some(CurrencyMissing)
    else if ParseCurrency(data.value.currency.value).None? then Some(CurrencyNotSupported)
    else None
  }

  /** `validateDebitWithdraw`: a body with an amount difference, or ERR_012. */
  function ValidateDebitWithdraw(data: Option<DebitWithdraw>): (r: Option<Error>)
    ensures r.Some? <==> data.None? || data.value.amountDiff.None?
    ensures r.Some? ==> r.value == AmountDiffMissing
  {
    if data.None? || data.value.amountDiff.None? then Some(AmountDiffMissing) else None
  }

  /** The client body, linked to the client. */
  function ClientBodyOf(c: Clients.Client): Body
  {
    ClientBody(c.id, c.name, MakeHref(c.id, None))
  }

  /** The account body, linked under client `hrefClient`. */
  function AccountBodyOf(a: Accounts.Account, hrefClient: int): Body
  {
    AccountBody(a.id, a.clientId, CurrencyName(a.currency), a.amount, MakeHref(hrefClient, Some(a.id)))
  }

  /** `GET /clients/{clientId}`: the client, or ERR_001. */
  function ClientInfo(db: Db, clientId: int): (r: Effect<Response>)
    ensures r.db == db && r.out.Returned?
    ensures r.out.value == ErrorReply(ClientNotFound) <==> clientId !in db.clients
    ensures clientId in db.clients ==>
              r.out.value == Success(ClientBody(clientId, db.clients[clientId], MakeHref(clientId, None)))
  {
    match Clients.GetById(db, clientId)
    case None => Effect(Returned(ErrorReply(ClientNotFound)), db, [Select(ClientTable, "id")])
    case Some(c) => Effect(Returned(Success(ClientBodyOf(c))), db, [Select(ClientTable, "id")])
  }

  /** `POST /clients` with the port's insert reply: ERR_006 for a missing name,
      ERR_005 (raised) for a taken name, ERR_004 when nothing was inserted, else the
      new client and its link. */
  function NewClient(db: Db, data: Option<ClientData>, insertedId: int): (r: Effect<Response>)
    requires UniqueNames(db.clients)
    requires insertedId < 0 || insertedId !in db.clients
    ensures r.db.accounts == db.accounts && UniqueNames(r.db.clients)
    ensures ValidateClientData(data).Some? ==>
              r.out == Returned(ErrorReply(ClientNameMissing)) && r.db == db && r.calls == []
    ensures ValidateClientData(data).None? ==>
              var name := data.value.name.value;
              && (name in db.clients.Values ==> r.out == Threw(Business(ClientExists)) && r.db == db)
              && (name !in db.clients.Values && insertedId < 0 ==>
                    r.out == Returned(ErrorReply(ClientNotCreated)) && r.db == db)
              && (name !in db.clients.Values && insertedId >= 0 ==>
                    && r.out == Returned(Success(ClientBody(insertedId, name, MakeHref(insertedId, None))))
                    && r.db.clients == db.clients[insertedId := name])
  {
    match ValidateClientData(data)
    case Some(e) => Effect(Returned(ErrorReply(e)), db, [])
    case None =>
      var created := Clients.Create(db, data.value.name.value, insertedId);
      match created.out
      case Threw(exc) => Effect(Threw(exc), created.db, created.calls)
      case Returned(None) => Effect(Returned(ErrorReply(ClientNotCreated)), created.db, created.calls)
      case Returned(Some(c)) => Effect(Returned(Success(ClientBodyOf(c))), created.db, created.calls)
  }

  /** `GET /clients/{clientId}/account/{accountId}`: a missing client (ERR_001) is
      reported before a missing account (ERR_002). The account is not required to
      belong to the client; its link uses its own owner's id. */
  function AccountInfo(db: Db, clientId: int, accountId: int): (r: Effect<Response>)
    ensures r.db == db && r.out.Returned?
    ensures r.out.value == ErrorReply(ClientNotFound) <==> clientId !in db.clients
    ensures r.out.value == ErrorReply(AccountNotFound) <==> clientId in db.clients && accountId !in db.accounts
    ensures clientId in db.clients && accountId in db.accounts ==>
              var row := db.accounts[accountId];
              r.out.value == Success(AccountBody(accountId, row.clientId, CurrencyName(row.currency), row.amount,
                                                 MakeHref(row.clientId, Some(accountId))))
  {
    var clientCheck := Select(ClientTable, "id");
    match Clients.GetById(db, clientId)
    case None => Effect(Returned(ErrorReply(ClientNotFound)), db, [clientCheck])
    case Some(_) =>
      var calls := [clientCheck, Select(AccountTable, "id")];
      match Accounts.GetById(db, accountId)
      case None => Effect(Returned(ErrorReply(AccountNotFound)), db, calls)
      case Some(a) => Effect(Returned(Success(AccountBodyOf(a, a.clientId))), db, calls)
  }

  /** `POST /clients/{clientId}/account` with the port's insert reply: ERR_007 or
      ERR_010 from validation with nothing inserted; ERR_001 or ERR_008 raised by
      `create`; ERR_009 when nothing was inserted; else the new account, with
      amount 0, and its link. */
  function OpenAccount(db: Db, clientId: int, data: Option<AccountData>, insertedId: int): (r: Effect<Response>)
    requires Valid(db)
    requires insertedId < 0 || insertedId !in db.accounts
    ensures Valid(r.db) && r.db.clients == db.clients && Stable(db.accounts, r.db.accounts)
    ensures ValidateAccountData(data).Some? ==>
              r.out == Returned(ErrorReply(ValidateAccountData(data).value)) && r.db == db && r.calls == []
    ensures ValidateAccountData(data).None? ==>
              var currency := ParseCurrency(data.value.currency.value).value;
              && (clientId !in db.clients ==> r.out == Threw(Business(ClientNotFound)) && r.db == db)
              && (clientId in db.clients && Accounts.HasAccount(db.accounts, clientId) ==>
                    r.out == Threw(Business(ClientHasAccount)) && r.db == db)
              && (clientId in db.clients && !Accounts.HasAccount(db.accounts, clientId) && insertedId < 0 ==>
                    r.out == Returned(ErrorReply(AccountNotCreated)) && r.db == db)
              && (clientId in db.clients && !Accounts.HasAccount(db.accounts, clientId) && insertedId >= 0 ==>
                    && r.out == Returned(Success(AccountBody(insertedId, clientId, CurrencyName(currency), 0,
                                                             MakeHref(clientId, Some(insertedId)))))
                    && r.db.accounts == db.accounts[insertedId := AccountRow(clientId, currency, 0)])
  {
    match ValidateAccountData(data)
    case Some(e) => Effect(Returned(ErrorReply(e)), db, [])
    case None =>
      var currency := ParseCurrency(data.value.currency.value).value;
      var created := Accounts.Create(db, clientId, currency, insertedId);
      match created.out
      case Threw(exc) => Effect(Threw(exc), created.db, created.calls)
      case Returned(None) => Effect(Returned(ErrorReply(AccountNotCreated)), created.db, created.calls)
      case Returned(Some(a)) => Effect(Returned(Success(AccountBodyOf(a, clientId))), created.db, created.calls)
  }

  /** `PUT /clients/{clientId}/account/{accountId}` with the port's reply to the
      update. The checks run in order: validation (ERR_012), account exists
      (ERR_002), account belongs to the client (ERR_011); only then is the balance
      updated, and an update reporting no row gives ERR_013. The reply shows the
      balance computed from the locked row. */
  function DebitWithdrawAccount(db: Db, clientId: int, accountId: int, data: Option<DebitWithdraw>, rows: int)
    : (r: Effect<Response>)
    ensures r.db.clients == db.clients && Stable(db.accounts, r.db.accounts)
    ensures forall k :: k in db.accounts && k != accountId ==> r.db.accounts[k] == db.accounts[k]
    ensures ValidateDebitWithdraw(data).Some? ==>
              r.out == Returned(ErrorReply(AmountDiffMissing)) && r.db == db && r.calls == []
    ensures ValidateDebitWithdraw(data).None? && accountId !in db.accounts ==>
              r.out == Returned(ErrorReply(AccountNotFound)) && r.db == db
    ensures ValidateDebitWithdraw(data).None? && accountId in db.accounts && db.accounts[accountId].clientId != clientId ==>
              r.out == Returned(ErrorReply(NotAccountOwner)) && r.db == db
    ensures r.db != db ==>
              && ValidateDebitWithdraw(data).None? && accountId in db.accounts
              && db.accounts[accountId].clientId == clientId
    ensures ValidateDebitWithdraw(data).None? && accountId in db.accounts && db.accounts[accountId].clientId == clientId
            && Accounts.Balance(db, accountId) >= 0 ==>
              var row := db.accounts[accountId];
              var diff := data.value.amountDiff.value;
              && (row.amount + diff < 0 || row.amount + diff > INT_MAX ==>
                    r.out == Threw(Transfer(InsufficientFunds)) && r.db == db)
              && (0 <= row.amount + diff <= INT_MAX && rows != 1 ==>
                    r.out == Returned(ErrorReply(AccountNotUpdated)) && r.db == db)
              && (0 <= row.amount + diff <= INT_MAX && rows == 1 ==>
                    && r.out == Returned(Success(AccountBody(accountId, clientId, CurrencyName(row.currency),
                                                             row.amount + diff, MakeHref(clientId, Some(accountId)))))
                    && Accounts.Balance(r.db, accountId) == row.amount + diff)
  {
    match ValidateDebitWithdraw(data)
    case Some(e) => Effect(Returned(ErrorReply(e)), db, [])
    case None =>
      var lookup := Select(AccountTable, "id");
      match Accounts.GetById(db, accountId)
      case None => Effect(Returned(ErrorReply(AccountNotFound)), db, [lookup])
      case Some(account) =>
        if account.clientId != clientId then
          Effect(Returned(ErrorReply(NotAccountOwner)), db, [lookup])
        else
          var m := Accounts.UpdateAmount(db, account, data.value.amountDiff.value, rows);
          var calls := [lookup] + m.calls;
          match m.out
          case Threw(exc) => Effect(Threw(exc), m.db, calls)
          case Returned(false) => Effect(Returned(ErrorReply(AccountNotUpdated)), m.db, calls)
          case Returned(true) => Effect(Returned(Success(AccountBodyOf(m.self, clientId))), m.db, calls)
  }
}
