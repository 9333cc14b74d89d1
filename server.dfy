/** The route handlers of src/server.js over the player array they load.
    Reading and writing the data file is replaced by the `players` field:
    each handler starts from the array as it stands and leaves in it what
    it would write back. */
module Server {
  import opened Players
  import opened Collection

  class Store<V> {
    /** The parsed contents of the data file. */
    var players: seq<Player<V>>

    constructor (initial: seq<Player<V>>)
      ensures players == initial
    {
      players := initial;
    }

    /** GET /: the whole collection, unchanged. */
    method List() returns (all: seq<Player<V>>)
      ensures all == players
    {
      all := players;
    }

    /** GET /:id: the first record carrying `id`, or NotFound; nothing is
        written. */
    method Get(id: string) returns (r: Outcome<Player<V>>)
      ensures r.NotFound? <==> !HasId(players, id)
      ensures r.Ok? ==> exists i :: FirstMatch(players, id, i) && players[i] == r.value
    {
      r := Find(players, id);
    }

    /** PUT /:id: a found record gets the partial update of PATCH; when no
        record carries `id`, the body becomes a new record under the
        generated id `newId` (not the path id), pushed at the end. The
        answer is always the record, never NotFound. */
    method Put(id: string, body: Body<V>, newId: string) returns (p: Player<V>)
      modifies this
      ensures HasId(old(players), id) ==>
        players == Patched(old(players), id, body) && p == Merge(Find(old(players), id).value, body)
      ensures !HasId(old(players), id) ==>
        players == old(players) + [p] && p == NewPlayer(body, newId)
      ensures HasId(old(players), id) || !HasId(old(players), newId) ==> Find(players, p.id) == Ok(p)
      ensures UniqueIds(old(players)) && (HasId(old(players), id) || !HasId(old(players), newId)) ==>
        UniqueIds(players)
    {
      var i := IndexOf(players, id);
      if i.None? {
        p := NewPlayer(body, newId);
        if UniqueIds(players) && !HasId(players, newId) {
          AppendKeepsUniqueIds(players, p);
        }
        FindAppended(players, p, newId);
        players := players + [p];
      } else {
        p := Merge(players[i.value], body);
        players := players[i.value := p];
      }
    }

    /** PATCH /:id: the partial update of the first record carrying `id`,
        answered with the updated record; NotFound, with nothing written,
        when no record carries it. */
    method Patch(id: string, body: Body<V>) returns (r: Outcome<Player<V>>)
      modifies this
      ensures r.NotFound? <==> !HasId(old(players), id)
      ensures r.NotFound? ==> players == old(players)
      ensures r.Ok? ==> players == Patched(old(players), id, body)
      ensures r.Ok? ==> r.value == Merge(Find(old(players), id).value, body)
      ensures r == Find(players, id)
      ensures UniqueIds(old(players)) ==> UniqueIds(players)
    {
      var i := IndexOf(players, id);
      if i.None? {
        r := NotFound;
        return;
      }
      var p := Merge(players[i.value], body);
      players := players[i.value := p];
      r := Ok(p);
    }

    /** DELETE /:id: every record carrying `id` is dropped, the rest keep
        their order; NotFound, with nothing written, when no record carries
        it. */
    method Delete(id: string) returns (r: Outcome<()>)
      modifies this
      ensures r.NotFound? <==> !HasId(old(players), id)
      ensures r.NotFound? ==> players == old(players)
      ensures r.Ok? ==> players == Without(old(players), id)
      ensures Find(players, id) == NotFound
      ensures UniqueIds(old(players)) ==> UniqueIds(players)
    {
      if IndexOf(players, id).None? {
        r := NotFound;
        return;
      }
      if UniqueIds(players) {
        WithoutKeepsUniqueIds(players, id);
      }
      DeleteThenGet(players, id);
      players := Without(players, id);
      r := Ok(());
    }

    /** POST /: the body becomes a new record under the generated id
        `newId`, pushed at the end; the earlier records stay as they were. */
    method Post(body: Body<V>, newId: string) returns (p: Player<V>)
      modifies this
      ensures p == NewPlayer(body, newId)
      ensures players == old(players) + [p]
      ensures !HasId(old(players), newId) ==> Find(players, newId) == Ok(p)
      ensures UniqueIds(old(players)) && !HasId(old(players), newId) ==> UniqueIds(players)
    {
      p := NewPlayer(body, newId);
      if UniqueIds(players) && !HasId(players, newId) {
        AppendKeepsUniqueIds(players, p);
      }
      FindAppended(players, p, newId);
      players := players + [p];
    }
  }

  /** A create, list, delete, get sequence on an empty collection: the
      created record carries the generated id and the body's fields, the
      list shows it, and once it is deleted a lookup of its id is
      NotFound. */
  method CreateListDeleteGet<V>(name: V, country: V, rank: V, newId: string)
    returns (created: Player<V>, listed: seq<Player<V>>, afterDelete: Outcome<Player<V>>)
    ensures created == Player(newId, Some(name), Some(country), Some(rank), map[])
    ensures listed == [created]
    ensures afterDelete == NotFound
  {
    var store := new Store<V>([]);
    created := store.Post(Body(Some(name), Some(country), Some(rank), map[]), newId);
    listed := store.List();
    var deleted := store.Delete(newId);
    afterDelete := store.Get(newId);
  }
}
