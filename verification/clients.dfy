/** The client entity: lookups by id and by name, and creation under a unique name. */
module Clients {
  import opened Errors
  import opened Store

  datatype Client = Client(id: int, name: string)

  /** `Client.getById`: the row with this id, or "not found" (never an error). */
  function GetById(db: Db, id: int): (r: Option<Client>)
    ensures r.None? <==> id !in db.clients
    ensures r.Some? ==> r.value == Client(id, db.clients[id])
  {
    if id in db.clients then Some(Client(id, db.clients[id])) else None
  }

  /** `Client.getByName`: the row with this name, or "not found" (never an error).
      The UNIQUE constraint on the name makes the row, if any, the only one. */
  function GetByName(db: Db, name: string): (r: Option<Client>)
    requires UniqueNames(db.clients)
    ensures r.None? <==> name !in db.clients.Values
    ensures r.Some? ==> r.value.name == name && r.value.id in db.clients && db.clients[r.value.id] == name
  {
    if exists id :: id in db.clients && db.clients[id] == name then
      var id :| id in db.clients && db.clients[id] == name;
      Some(Client(id, name))
    else
      None
  }

  /** `Client.create(name)` when the port's insert replies with `insertedId`
      (a negative reply means nothing was inserted). A name already taken raises
      ERR_005 before anything is inserted; otherwise only the `name` column is
      inserted and the new client is returned, or null on a negative reply. */
  function Create(db: Db, name: string, insertedId: int): (r: Effect<Option<Client>>)
    requires UniqueNames(db.clients)
    requires insertedId < 0 || insertedId !in db.clients
    ensures r.db.accounts == db.accounts
    ensures UniqueNames(r.db.clients)
    ensures r.out == Threw(Business(ClientExists)) <==> name in db.clients.Values
    ensures name in db.clients.Values ==> r.db == db && r.calls == [Select(ClientTable, "name")]
    ensures name !in db.clients.Values ==>
              r.calls == [Select(ClientTable, "name"), Insert(ClientTable, {"name"})]
    ensures name !in db.clients.Values && insertedId < 0 ==> r.out == Returned(None) && r.db == db
    ensures name !in db.clients.Values && insertedId >= 0 ==>
              && r.out == Returned(Some(Client(insertedId, name)))
              && r.db.clients == db.clients[insertedId := name]
  {
    var check := Select(ClientTable, "name");
    if GetByName(db, name).Some? then
      Effect(Threw(Business(ClientExists)), db, [check])
    else
      var calls := [check, Insert(ClientTable, {"name"})];
      if insertedId < 0 then
        Effect(Returned(None), db, calls)
      else
        Effect(Returned(Some(Client(insertedId, name))), db.(clients := db.clients[insertedId := name]), calls)
  }

  /** After a successful create, both lookups find the new client. */
  lemma CreateThenLookup(db: Db, name: string, insertedId: int)
    requires UniqueNames(db.clients)
    requires insertedId < 0 || insertedId !in db.clients
    requires Create(db, name, insertedId).out.Returned?
    requires Create(db, name, insertedId).out.value.Some?
    ensures var r := Create(db, name, insertedId);
            var c := r.out.value.value;
            && GetById(r.db, c.id) == Some(c)
            && GetByName(r.db, name) == Some(c)
  {
  }

  /** Creating the same name twice: the second create fails with ERR_005 and changes nothing. */
  lemma DuplicateCreateFails(db: Db, name: string, id1: int, id2: int)
    requires UniqueNames(db.clients)
    requires id1 >= 0 && id1 !in db.clients
    requires name !in db.clients.Values
    ensures var first := Create(db, name, id1);
            && (id2 < 0 || id2 !in first.db.clients ==>
                  var second := Create(first.db, name, id2);
                  second.out == Threw(Business(ClientExists)) && second.db == first.db)
  {
    var first := Create(db, name, id1);
    assert first.db.clients[id1] == name;
  }
}
