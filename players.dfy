/** Records of the player service: a stored player, a parsed request body,
    the partial-update rule `field = supplied ?? stored`, and the record a
    create builds from `{ ...body, id: generated }`. */
module Players {

  /** A JSON value that may be missing. `None` stands for both `undefined`
      and `null`: the `??` operator treats the two alike. */
  datatype Option<+T> = None | Some(value: T)

  /** What a handler answers: the record, or "Player not found". */
  datatype Outcome<+T> = Ok(value: T) | NotFound

  /** Keys the record layout gives a meaning of its own; every other key of
      a body travels along opaquely in `extra`. */
  const Reserved: set<string> := {"id", "name", "country", "rank"}

  /** A stored player. Field values are opaque JSON values of type V; keys
      other than the four named ones are kept in `extra`. */
  datatype Player<V> = Player(
    id: string,
    name: Option<V>,
    country: Option<V>,
    rank: Option<V>,
    extra: map<string, V>)

  /** A parsed request body. `extra` holds every key other than name,
      country and rank, including an `id` the caller may have sent. */
  datatype Body<V> = Body(
    name: Option<V>,
    country: Option<V>,
    rank: Option<V>,
    extra: map<string, V>)

  /** The `??` operator: the supplied value when there is one, else the
      stored one. */
  function Coalesce<V>(supplied: Option<V>, stored: Option<V>): Option<V>
  {
    if supplied.Some? then supplied else stored
  }

  /** The partial update of PUT and PATCH on a found record: each of name,
      country and rank takes the body's value when one is supplied and
      keeps the stored one otherwise; the id and every other key stay. */
  function Merge<V>(p: Player<V>, b: Body<V>): (r: Player<V>)
    ensures r.id == p.id && r.extra == p.extra
    ensures b.name.Some? ==> r.name == b.name
    ensures b.name.None? ==> r.name == p.name
    ensures b.country.Some? ==> r.country == b.country
    ensures b.country.None? ==> r.country == p.country
    ensures b.rank.Some? ==> r.rank == b.rank
    ensures b.rank.None? ==> r.rank == p.rank
  {
    p.(name := Coalesce(b.name, p.name),
       country := Coalesce(b.country, p.country),
       rank := Coalesce(b.rank, p.rank))
  }

  /** The record built by `{ ...body, id: generated }`: every key of the
      body is copied, and the generated id, written after the spread,
      wins over any `id` the body carries. */
  function NewPlayer<V>(b: Body<V>, newId: string): (r: Player<V>)
    ensures r.id == newId
    ensures r.name == b.name && r.country == b.country && r.rank == b.rank
    ensures "id" !in r.extra
    ensures forall k :: k in b.extra && k !in Reserved ==> k in r.extra && r.extra[k] == b.extra[k]
    ensures forall k :: k in r.extra ==> k in b.extra
  {
    Player(newId, b.name, b.country, b.rank,
           map k | k in b.extra && k !in Reserved :: b.extra[k])
  }

  /** Applying the same partial update twice is applying it once. */
  lemma MergeIdempotent<V>(p: Player<V>, b: Body<V>)
    ensures Merge(Merge(p, b), b) == Merge(p, b)
  {
  }

  /** A body that supplies nothing leaves the record as it is. */
  lemma MergeNothing<V>(p: Player<V>, extra: map<string, V>)
    ensures Merge(p, Body(None, None, None, extra)) == p
  {
  }

  /** Updating a freshly created record with the body it was created from
      changes nothing. */
  lemma MergeIntoNew<V>(b: Body<V>, newId: string)
    ensures Merge(NewPlayer(b, newId), b) == NewPlayer(b, newId)
  {
  }
}
