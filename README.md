# Player service collection logic

A Dafny model of the part of the player REST service (`src/server.js`) that
has logic in it: what each route handler does to the array of players it
loads from the data file before it writes the array back.

- `players.dfy` (module `Players`): a stored `Player` (id, `name`,
  `country`, `rank`, and any other keys as an opaque map), a parsed request
  `Body`, the partial-update rule `field = supplied ?? stored` (`Merge`), and
  the record `{ ...body, id: generated }` that a create builds (`NewPlayer`).
  Field values are a type parameter `V`. A missing value is `None`. It stands
  for both `undefined` and `null`, because `??` treats them alike.
- `collection.dfy` (module `Collection`): the pure functions over
  `seq<Player<V>>`:
  - `IndexOf` and `Find` model `players.find(p => p.id === id)`.
  - `Patched` is the collection after the in-place partial update.
  - `Without` models `players.filter(i => i.id != id)`.
  - The lemmas cover idempotence, commuting patches, create-then-get,
    delete-then-get, order preservation and uniqueness of ids.
- `server.dfy` (module `Server`): class `Store`, whose `players` field
  stands for the parsed data file. It has one method per handler: `List`
  (GET /), `Get` (GET /:id), `Put` (PUT /:id), `Patch` (PATCH /:id),
  `Delete` (DELETE /:id) and `Post` (POST /). Each mutating method states the
  new collection in terms of the old one.

The id that `shortid.generate()` would produce is a parameter `newId` of
`Put` and `Post`. The source never checks it for collisions. So freshness is
only a hypothesis of the statements that need it, such as "Get after Post
finds the new record" and "ids stay unique". No method requires it.

Points where the code's behaviour is easy to misread:

- PUT on a missing id does not report whether it created the record.
- PUT on a missing id creates the record under a generated id, not under the
  path id. `PutCreateKeepsPathMissing` shows that the path id is still not
  found afterwards, unless the generator returned the path id.
- Unique ids are not enforced. No method requires them. Each operation is
  proved to preserve them when they already hold. For a PUT or POST that
  creates, the generated id must also not be in use already.
- No lock serialises the handlers. The model treats each handler as one
  atomic step.

## Model

| member | source | states |
|---|---|---|
| Players.Merge | src/server.js:63-65 | each of name, country and rank takes the body's value when it is supplied and keeps the stored value otherwise; the id and all other keys are kept |
| Players.NewPlayer | src/server.js:101-104 | the created record has the generated id, even when the body carries an `id`; it has the body's name, country and rank, and the body's other keys except `id` |
| Players.MergeIdempotent | src/server.js:42-44 | applying the same partial update twice equals applying it once |
| Players.MergeNothing | src/server.js:63-65 | a body that supplies none of the three fields leaves the record unchanged |
| Players.MergeIntoNew | src/server.js:36-44 | updating a just-created record with the body it was created from changes nothing |
| Collection.IndexOf | src/server.js:34 | returns the position of the first record with the id, or none exactly when no record has it |
| Collection.Find | src/server.js:93-97 | Ok exactly when some record has the id; the value is the first such record and carries the id |
| Collection.Count | src/server.js:82 | the number of records with the id is at most the length, and zero exactly when none has it |
| Collection.Patched | src/server.js:58-65 | keeps the length and every id; changes only the first record with the id; is unchanged when no record has the id; a later find returns the merged record |
| Collection.Without | src/server.js:82 | every kept record is from the input and has a different id; every input record with a different id is kept; the length drops by the number of matches; nothing changes when no record has the id |
| Collection.IndexOfSameIds | src/server.js:58-65 | the first match depends only on the ids, so an update that keeps every id keeps the position find returns |
| Collection.PatchIdempotent | src/server.js:63-65 | patching twice with the same body gives the same collection as patching once |
| Collection.PatchesCommute | src/server.js:58-65 | patches of two different ids commute, and both updates show in the result |
| Collection.FindAppended | src/server.js:40 | after a push, find returns an earlier match if there is one; otherwise it returns the pushed record when its id matches, and NotFound when it does not |
| Collection.IndexOfUnique | src/server.js:34 | the position find returns is the one first match |
| Collection.CreateThenGet | src/server.js:101-107 | when the generated id is not in use, looking it up after the create returns the created record |
| Collection.PutCreateKeepsPathMissing | src/server.js:35-40 | after a PUT that creates, the path id is still not found, unless it equals the generated id |
| Collection.DeleteThenGet | src/server.js:82 | after the filter, a lookup of the deleted id is NotFound |
| Collection.WithoutConcat | src/server.js:82 | filtering a concatenation equals concatenating the filtered parts, so relative order is kept |
| Collection.CountUnique | src/server.js:82 | with unique ids, at most one record has a given id |
| Collection.DeleteRemovesOne | src/server.js:82 | with unique ids, deleting an existing id shortens the collection by exactly one |
| Collection.WithoutKeepsUniqueIds | src/server.js:82 | the filter keeps ids unique |
| Collection.WithoutAvoidsId | src/server.js:82 | an id that no input record has is not on any kept record |
| Collection.PatchedKeepsUniqueIds | src/server.js:63-65 | the partial update keeps ids unique |
| Collection.AppendKeepsUniqueIds | src/server.js:107 | pushing a record whose id is not in use keeps ids unique |
| Server.Store.constructor | src/server.js:31-32 | the store starts as the loaded array |
| Server.Store.List | src/server.js:112-116 | GET / returns the collection as it is |
| Server.Store.Get | src/server.js:87-98 | GET /:id returns the first record with the id, or NotFound exactly when none has it; it writes nothing |
| Server.Store.Put | src/server.js:27-49 | on an existing id: the same new collection and answer as PATCH. On a missing id: one record pushed at the end, made from the body under the generated id, with the earlier records unchanged. The answer is never NotFound. Unique ids are kept on the update branch, and on the create branch when the generated id is not in use |
| Server.Store.Patch | src/server.js:51-69 | NotFound exactly when no record has the id, and then nothing changes; otherwise the new collection is the patched one and the answer is the merged record, which a later find returns |
| Server.Store.Delete | src/server.js:71-85 | NotFound exactly when no record has the id, and then nothing changes; otherwise the new collection is the filtered one; either way a later find of the id is NotFound |
| Server.Store.Post | src/server.js:100-110 | pushes exactly one record, built from the body under the generated id; the old collection is the prefix; the new record is found by its id when that id was fresh |
| Server.CreateListDeleteGet | src/server.js:71-116 | on an empty store: POST, then GET /, then DELETE, then GET /:id gives the created record, then a list holding only it, then NotFound |

## Left out

- Express setup, the `cors`, `morgan` and `express.json` middleware, and `app.listen` (src/server.js:1-13, 122-124). These are framework plumbing.
- Reading and writing `src/data.json` with `JSON.parse` and `JSON.stringify`. This is file I/O and library serialisation. The `players` field is the loaded array, and the state a method leaves is what would be written.
- The difference between a stored `null` and a missing key. Both are `None`. `JSON.stringify` keeps the first and drops the second, but `??` treats them alike.
- `shortid.generate()`. It is a foreign random generator, so the id it returns is the `newId` parameter.
- The lost-update race between concurrent handlers. This is concurrency, and the code has no lock to model. Each handler is one atomic step.
- HTTP status codes (200, 201, 203, 404) and the `{message: 'Player not found'}` body. They become `Ok` and `NotFound`.
- The `/health` route (src/server.js:118-120). It is static text, and `GET /:id` is registered before it and catches the path first.
- `===` at line 34 and `!=` at line 82 are both modelled as string equality. Ids are strings from path parameters and the generator, so the two operators agree.
- Records whose `id` is missing or not a string. A stored record always has a string id in the model.
- Mutation through object references. `find` returns the object that is in the array, and the handler assigns its fields. The model replaces the element by value instead. Each request parses a fresh array, so no other reference to that object can see the difference.
