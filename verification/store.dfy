/** The persistence port as the ledger sees it: the two tables, the calls made on
    them, and what an `update` or `insert` does to the stored rows. The replies of
    the port (rows affected, inserted id) are inputs, so every reply the code
    handles can be reached. */
module Store {
  import opened Errors

  const INT_MIN: int := -0x8000_0000
  const INT_MAX: int := 0x7fff_ffff

  /** A Java `int`. */
  type Int32 = x: int | INT_MIN <= x <= INT_MAX

  /** Java's two's-complement `int` arithmetic: the representative of `x` modulo 2^32. */
  function Wrap32(x: int): (r: Int32)
    ensures INT_MIN <= x <= INT_MAX ==> r == x
    ensures (x - r) % 0x1_0000_0000 == 0
  {
    (x - INT_MIN) % 0x1_0000_0000 + INT_MIN
  }

  /** For a non-negative stored amount and any `int` difference, the wrapped sum is
      non-negative exactly when the true sum fits in an `int` and is non-negative:
      an overflow never passes the "new amount >= 0" check. */
  lemma WrapNonNegative(base: Int32, diff: Int32)
    requires base >= 0
    ensures Wrap32(base + diff) >= 0 <==> 0 <= base + diff <= INT_MAX
  {
  }

  /** The currency enumeration (RUB, USD, EUR). */
  datatype Currency = RUB | USD | EUR

  function CurrencyName(c: Currency): string
  {
    match c
    case RUB => "RUB"
    case USD => "USD"
    case EUR => "EUR"
  }

  /** `Currency.valueOf`: the constant with exactly this name, if any. */
  function ParseCurrency(s: string): (r: Option<Currency>)
    ensures r.Some? ==> CurrencyName(r.value) == s
  {
    if s == "RUB" then Some(RUB)
    else if s == "USD" then Some(USD)
    else if s == "EUR" then Some(EUR)
    else None
  }

  /** `valueOf` accepts exactly the names of the constants. */
  lemma ParseCurrencyExact(s: string, c: Currency)
    ensures ParseCurrency(CurrencyName(c)) == Some(c)
    ensures ParseCurrency(s).None? <==> s !in {"RUB", "USD", "EUR"}
  {
  }

  /** A row of the `account` table (its id is the key it is stored under). */
  datatype AccountRow = AccountRow(clientId: int, currency: Currency, amount: Int32)

  /** The stored state: `client(id, name)` and `account(id, client_id, currency, amount)`. */
  datatype Db = Db(clients: map<int, string>, accounts: map<int, AccountRow>)

  datatype Table = ClientTable | AccountTable

  /** A call on the port, as a mock provider would record it. */
  datatype Call =
    | Select(table: Table, column: string)
    | SelectForUpdate(table: Table, id: int)
    | Insert(table: Table, columns: set<string>)
    | Update(table: Table, id: int, values: map<string, int>)

  /** The effect of an operation on the port: its outcome, the state it leaves and
      the calls it made, in order. */
  datatype Effect<+T> = Effect(out: Outcome<T>, db: Db, calls: seq<Call>)

  /** The UNIQUE constraint on `client.name`. */
  ghost predicate UniqueNames(clients: map<int, string>)
  {
    forall i, j :: i in clients && j in clients && clients[i] == clients[j] ==> i == j
  }

  /** The UNIQUE constraint on `account.client_id`. */
  ghost predicate UniqueOwners(accounts: map<int, AccountRow>)
  {
    forall i, j :: i in accounts && j in accounts && accounts[i].clientId == accounts[j].clientId ==> i == j
  }

  /** What the schema guarantees of every state. */
  ghost predicate Valid(db: Db)
  {
    UniqueNames(db.clients) && UniqueOwners(db.accounts)
  }

  /** No stored balance is negative. */
  ghost predicate NonNegative(accounts: map<int, AccountRow>)
  {
    forall k :: k in accounts ==> accounts[k].amount >= 0
  }

  /** `UPDATE account SET amount = ? WHERE id = ?` when the port reports `rows` rows
      affected: the amount of row `id` is replaced when one row was affected, and
      nothing is written otherwise. */
  function ApplyUpdate(accounts: map<int, AccountRow>, id: int, amount: Int32, rows: int): (r: map<int, AccountRow>)
    ensures r.Keys == accounts.Keys
    ensures forall k :: k in accounts && k != id ==> r[k] == accounts[k]
    ensures id in accounts ==> r[id].clientId == accounts[id].clientId && r[id].currency == accounts[id].currency
    ensures id in accounts ==> r[id].amount == (if rows == 1 then amount else accounts[id].amount)
  {
    if rows == 1 && id in accounts then accounts[id := accounts[id].(amount := amount)] else accounts
  }

  /** Rows are never removed and only `amount` ever changes: what any ledger step
      keeps of the rows that existed before it. */
  ghost predicate Stable(before: map<int, AccountRow>, after: map<int, AccountRow>)
  {
    && before.Keys <= after.Keys
    && forall k :: k in before ==> after[k].clientId == before[k].clientId && after[k].currency == before[k].currency
  }

  lemma StableTransitive(a: map<int, AccountRow>, b: map<int, AccountRow>, c: map<int, AccountRow>)
    requires Stable(a, b) && Stable(b, c)
    ensures Stable(a, c)
  {
  }

  /** A run of steps each of which is stable is stable as a whole. */
  lemma {:induction false} StableAlong(states: seq<map<int, AccountRow>>)
    requires |states| >= 1
    requires forall i :: 0 <= i < |states| - 1 ==> Stable(states[i], states[i + 1])
    ensures Stable(states[0], states[|states| - 1])
  {
    if |states| > 1 {
      var front := states[..|states| - 1];
      forall i | 0 <= i < |front| - 1
        ensures Stable(front[i], front[i + 1])
      {
        assert front[i] == states[i] && front[i + 1] == states[i + 1];
      }
      StableAlong(front);
      StableTransitive(states[0], states[|states| - 2], states[|states| - 1]);
    }
  }

  // ---------------------------------------------------------------------------
  // The sum of all balances.

  /** Sum of the amounts of all rows. */
  ghost function Total(accounts: map<int, AccountRow>): int
    decreases |accounts|
  {
    if exists k :: k in accounts then
      var k :| k in accounts;
      accounts[k].amount + Total(accounts - {k})
    else
      0
  }

  /** The total can be split at any key, not only at the one `Total` picks. */
  lemma {:induction false} TotalRemove(accounts: map<int, AccountRow>, k: int)
    requires k in accounts
    ensures Total(accounts) == accounts[k].amount + Total(accounts - {k})
    decreases |accounts|
  {
    var j :| j in accounts && Total(accounts) == accounts[j].amount + Total(accounts - {j});
    if j != k {
      var rest := accounts - {j};
      assert k in rest;
      TotalRemove(rest, k);
      assert rest - {k} == accounts - {k} - {j};
      var rest' := accounts - {k};
      assert j in rest';
      TotalRemove(rest', j);
      assert rest' - {j} == rest - {k};
    }
  }

  /** Replacing one row changes the total by the change of that row's amount. */
  lemma TotalReplace(accounts: map<int, AccountRow>, k: int, row: AccountRow)
    requires k in accounts
    ensures Total(accounts[k := row]) == Total(accounts) - accounts[k].amount + row.amount
  {
    var m := accounts[k := row];
    TotalRemove(m, k);
    TotalRemove(accounts, k);
    assert m - {k} == accounts - {k};
  }

  /** Adding a row adds its amount to the total. */
  lemma TotalInsert(accounts: map<int, AccountRow>, k: int, row: AccountRow)
    requires k !in accounts
    ensures Total(accounts[k := row]) == Total(accounts) + row.amount
  {
    var m := accounts[k := row];
    TotalRemove(m, k);
    assert m - {k} == accounts;
  }
}
