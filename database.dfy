/**
 * The per-request MongoDB connection cache: `get_client` and `get_db` fill Flask's `g` on
 * first use and `close_connection` empties it again. Clients and databases are tokens; what
 * is modelled is when a client is created, which value each call returns, and which clients
 * have been closed.
 */
module Database {

  /** A `pymongo.MongoClient(address)`; `serial` tells clients created one after another apart. */
  datatype Client = Client(serial: nat, address: string)

  /** `client[name]`. */
  datatype Db = Db(client: Client, name: string)

  datatype GValue = ClientValue(client: Client) | DbValue(db: Db)

  const ClientKey := "mongo_client"
  const DbKey := "db"

  /** Flask's `g` for one application context, with the two settings the cache reads. */
  class AppContext {
    const address: string       // MONGODB_ADDRESS
    const databaseName: string  // DATABASE_NAME
    var g: map<string, GValue>
    var created: seq<Client>    // every client constructed, in order
    var closed: seq<GValue>     // every value `close()` was called on, in order

    /**
     * The cache discipline: clients are created one at a time; the cached client is the
     * latest one and is open; a cached db belongs to the cached client and the configured
     * database; every other client ever created has been closed, and only clients are.
     */
    ghost predicate Valid()
      reads this
    {
      && (forall i :: 0 <= i < |created| ==> created[i] == Client(i, address))
      && (ClientKey in g ==>
            && |created| > 0
            && g[ClientKey] == ClientValue(created[|created| - 1])
            && ClientValue(created[|created| - 1]) !in closed)
      && (DbKey in g ==>
            ClientKey in g && g[DbKey] == DbValue(Db(g[ClientKey].client, databaseName)))
      && (forall i :: 0 <= i < |created| ==>
            ClientValue(created[i]) in closed || (ClientKey in g && i == |created| - 1))
      && (forall v :: v in closed ==> v.ClientValue? && v.client.serial < |created|)
    }

    constructor (address: string, databaseName: string)
      ensures Valid()
      ensures this.address == address && this.databaseName == databaseName
      ensures g == map[] && created == [] && closed == []
    {
      this.address := address;
      this.databaseName := databaseName;
      g := map[];
      created := [];
      closed := [];
    }

    /** `get_client`: create and cache a client only when none is cached; return the cached one. */
    method GetClient() returns (client: GValue)
      modifies this
      ensures closed == old(closed)
      ensures ClientKey in g && client == g[ClientKey]
      ensures ClientKey in old(g) ==>
        g == old(g) && created == old(created) && client == old(g)[ClientKey]
      ensures ClientKey !in old(g) ==>
        && client == ClientValue(Client(|old(created)|, address))
        && created == old(created) + [client.client]
        && g == old(g)[ClientKey := client]
      ensures old(Valid()) ==> Valid()
    {
      if ClientKey !in g {
        var c := Client(|created|, address);
        created := created + [c];
        g := g[ClientKey := ClientValue(c)];
      }
      client := g[ClientKey];
    }

    /**
     * `get_db`: when no db is cached, take the (possibly new) client and cache its database;
     * return the cached db.
     */
    method GetDb() returns (db: GValue)
      requires ClientKey in g ==> g[ClientKey].ClientValue?
      modifies this
      ensures closed == old(closed)
      ensures DbKey in g && db == g[DbKey]
      ensures DbKey in old(g) ==> g == old(g) && created == old(created) && db == old(g)[DbKey]
      ensures DbKey !in old(g) ==>
        var client := if ClientKey in old(g) then old(g)[ClientKey].client else Client(|old(created)|, address);
        && created == (if ClientKey in old(g) then old(created) else old(created) + [client])
        && db == DbValue(Db(client, databaseName))
        && g == old(g)[ClientKey := ClientValue(client)][DbKey := db]
      ensures old(Valid()) ==> Valid() && ClientKey in g
    {
      if DbKey !in g {
        var client := GetClient();
        g := g[DbKey := DbValue(Db(client.client, databaseName))];
      }
      db := g[DbKey];
    }

    /**
     * `close_connection`: if a client is cached, close it and drop both it and the db;
     * otherwise leave `g` as it is, a cached db included.
     */
    method CloseConnection()
      modifies this
      ensures created == old(created)
      ensures ClientKey in old(g) ==>
        closed == old(closed) + [old(g)[ClientKey]] && g == old(g) - {ClientKey, DbKey}
      ensures ClientKey !in old(g) ==> g == old(g) && closed == old(closed)
      ensures old(Valid()) ==> Valid()
    {
      if ClientKey in g {
        var client := g[ClientKey];
        g := g - {ClientKey};
        closed := closed + [client];
        g := g - {DbKey};
      }
    }
  }

  /**
   * One context's life: two `get_db` calls share one client and one db; after
   * `close_connection` that client is closed and the next `get_db` opens a fresh one.
   */
  method ReconnectAfterClose(address: string, databaseName: string)
    returns (first: GValue, second: GValue, third: GValue, ctx: AppContext)
    ensures first == second == DbValue(Db(Client(0, address), databaseName))
    ensures third == DbValue(Db(Client(1, address), databaseName))
    ensures ctx.created == [Client(0, address), Client(1, address)]
    ensures ctx.closed == [ClientValue(Client(0, address))]
    ensures ctx.Valid()
  {
    ctx := new AppContext(address, databaseName);
    first := ctx.GetDb();
    second := ctx.GetDb();
    ctx.CloseConnection();
    third := ctx.GetDb();
  }
}
