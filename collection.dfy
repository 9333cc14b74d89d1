/** The in-memory work the handlers of src/server.js do on the parsed
    player array: `find` by id, the in-place partial update of the found
    record, `push` of a new record and `filter` by id. */
module Collection {
  import opened Players

  /** Some record carries `id`. */
  ghost predicate HasId<V>(s: seq<Player<V>>, id: string)
  {
    exists j :: 0 <= j < |s| && s[j].id == id
  }

  /** Position `i` holds the first record whose id is `id`. */
  ghost predicate FirstMatch<V>(s: seq<Player<V>>, id: string, i: int)
  {
    0 <= i < |s| && s[i].id == id && forall j :: 0 <= j < i ==> s[j].id != id
  }

  /** No two records share an id: the invariant the collection is meant to
      keep, although no handler checks it. */
  ghost predicate UniqueIds<V>(s: seq<Player<V>>)
  {
    forall i, j :: 0 <= i < j < |s| ==> s[i].id != s[j].id
  }

  /** The position `players.find(p => p.id === id)` stops at. */
  function IndexOf<V>(s: seq<Player<V>>, id: string): (r: Option<nat>)
    ensures r.Some? ==> FirstMatch(s, id, r.value)
    ensures r.None? <==> !HasId(s, id)
  {
    if |s| == 0 then None
    else if s[0].id == id then Some(0)
    else match IndexOf(s[1..], id)
      case None =>
        assert forall j :: 1 <= j < |s| ==> s[j] == s[1..][j - 1];
        None
      case Some(k) =>
        assert forall j :: 1 <= j <= k + 1 ==> s[j] == s[1..][j - 1];
        Some(k + 1)
  }

  /** `players.find(p => p.id === id)`, with `undefined` as NotFound: the
      lookup of GET /:id. */
  function Find<V>(s: seq<Player<V>>, id: string): (r: Outcome<Player<V>>)
    ensures r.Ok? <==> HasId(s, id)
    ensures r.Ok? ==> r.value.id == id
    ensures r.Ok? ==> exists i :: FirstMatch(s, id, i) && s[i] == r.value
  {
    match IndexOf(s, id)
    case None => NotFound
    case Some(i) => Ok(s[i])
  }

  /** Number of records whose id is `id`. */
  function Count<V>(s: seq<Player<V>>, id: string): (n: nat)
    ensures n <= |s|
    ensures n == 0 <==> !HasId(s, id)
  {
    if |s| == 0 then 0
    else
      assert forall j :: 1 <= j < |s| ==> s[j] == s[1..][j - 1];
      (if s[0].id == id then 1 else 0) + Count(s[1..], id)
  }

  /** The collection after PATCH, or after PUT on an id that exists: the
      first record carrying `id` is merged with the body in place. */
  function Patched<V>(s: seq<Player<V>>, id: string, b: Body<V>): (r: seq<Player<V>>)
    ensures |r| == |s|
    ensures forall j :: 0 <= j < |s| ==> r[j].id == s[j].id
    ensures forall j :: 0 <= j < |s| && IndexOf(s, id) != Some(j) ==> r[j] == s[j]
    ensures !HasId(s, id) ==> r == s
    ensures Find(s, id).Ok? ==> Find(r, id) == Ok(Merge(Find(s, id).value, b))
  {
    match IndexOf(s, id)
    case None => s
    case Some(i) =>
      var t := s[i := Merge(s[i], b)];
      IndexOfSameIds(s, t, id);
      t
  }

  /** `players.filter(i => i.id != id)`: the collection DELETE writes back. */
  function Without<V>(s: seq<Player<V>>, id: string): (r: seq<Player<V>>)
    ensures forall j :: 0 <= j < |r| ==> r[j] in s && r[j].id != id
    ensures forall j :: 0 <= j < |s| && s[j].id != id ==> s[j] in r
    ensures |r| == |s| - Count(s, id)
    ensures !HasId(s, id) ==> r == s
  {
    if |s| == 0 then []
    else
      assert forall j :: 1 <= j < |s| ==> s[j] == s[1..][j - 1];
      assert s == [s[0]] + s[1..];
      if s[0].id != id then [s[0]] + Without(s[1..], id) else Without(s[1..], id)
  }

  /** The first match depends on the ids alone, so a change that keeps
      every id in place keeps the position `find` stops at. */
  lemma IndexOfSameIds<V>(s: seq<Player<V>>, t: seq<Player<V>>, id: string)
    requires |s| == |t|
    requires forall j :: 0 <= j < |s| ==> s[j].id == t[j].id
    ensures IndexOf(s, id) == IndexOf(t, id)
  {
  }

  /** Patching twice with the same body gives the collection patching once
      gives. */
  lemma PatchIdempotent<V>(s: seq<Player<V>>, id: string, b: Body<V>)
    ensures Patched(Patched(s, id, b), id, b) == Patched(s, id, b)
  {
  }

  /** Two patches of different ids applied one after the other both show in
      the result, in either order: neither update is lost. */
  lemma PatchesCommute<V>(s: seq<Player<V>>, id1: string, b1: Body<V>, id2: string, b2: Body<V>)
    requires id1 != id2
    ensures Patched(Patched(s, id1, b1), id2, b2) == Patched(Patched(s, id2, b2), id1, b1)
    ensures Find(s, id1).Ok? ==>
      Find(Patched(Patched(s, id1, b1), id2, b2), id1) == Ok(Merge(Find(s, id1).value, b1))
    ensures Find(s, id2).Ok? ==>
      Find(Patched(Patched(s, id1, b1), id2, b2), id2) == Ok(Merge(Find(s, id2).value, b2))
  {
  }

  /** How `find` sees a record pushed at the end: earlier records win, and
      the new record is found only when no earlier one carries the id. */
  lemma FindAppended<V>(s: seq<Player<V>>, p: Player<V>, id: string)
    ensures Find(s + [p], id) ==
      (if HasId(s, id) then Find(s, id) else if p.id == id then Ok(p) else NotFound)
  {
    var t := s + [p];
    assert forall j :: 0 <= j < |s| ==> t[j] == s[j];
    match IndexOf(s, id)
    case Some(i) =>
      IndexOfUnique(t, id, i);
    case None =>
      if p.id == id {
        IndexOfUnique(t, id, |s|);
      }
  }

  /** The position `find` stops at is the one first match. */
  lemma IndexOfUnique<V>(s: seq<Player<V>>, id: string, i: int)
    requires FirstMatch(s, id, i)
    ensures IndexOf(s, id) == Some(i)
  {
  }

  /** After a create, looking the generated id up returns the created
      record, provided the generator did not repeat an id in use. */
  lemma CreateThenGet<V>(s: seq<Player<V>>, b: Body<V>, newId: string)
    requires !HasId(s, newId)
    ensures Find(s + [NewPlayer(b, newId)], newId) == Ok(NewPlayer(b, newId))
  {
    FindAppended(s, NewPlayer(b, newId), newId);
  }

  /** A PUT that creates gives the new record the generated id, so the
      path id it was called with is still not found afterwards (unless the
      generator happened to produce that very id). */
  lemma PutCreateKeepsPathMissing<V>(s: seq<Player<V>>, id: string, b: Body<V>, newId: string)
    requires !HasId(s, id) && newId != id
    ensures Find(s + [NewPlayer(b, newId)], id) == NotFound
  {
  }

  /** After DELETE no record carries the id, so GET of it is NotFound. */
  lemma DeleteThenGet<V>(s: seq<Player<V>>, id: string)
    ensures Find(Without(s, id), id) == NotFound
  {
  }

  /** `filter` keeps relative order: filtering a concatenation is
      concatenating the filtered parts. */
  lemma {:induction false} WithoutConcat<V>(s: seq<Player<V>>, t: seq<Player<V>>, id: string)
    ensures Without(s + t, id) == Without(s, id) + Without(t, id)
  {
    if |s| == 0 {
      assert s + t == t;
    } else {
      assert (s + t)[1..] == s[1..] + t;
      WithoutConcat(s[1..], t, id);
    }
  }

  /** With unique ids at most one record carries a given id. */
  lemma {:induction false} CountUnique<V>(s: seq<Player<V>>, id: string)
    requires UniqueIds(s)
    ensures Count(s, id) == if HasId(s, id) then 1 else 0
  {
    if |s| > 0 {
      var t := s[1..];
      assert forall j :: 0 <= j < |t| ==> t[j] == s[j + 1];
      CountUnique(t, id);
      if s[0].id == id {
        forall j | 0 <= j < |t| ensures t[j].id != id {
          assert s[0].id != s[j + 1].id;
        }
      }
    }
  }

  /** With unique ids, DELETE of an existing id removes exactly one record. */
  lemma DeleteRemovesOne<V>(s: seq<Player<V>>, id: string)
    requires UniqueIds(s) && HasId(s, id)
    ensures |Without(s, id)| == |s| - 1
  {
  }

  /** DELETE keeps the ids unique. */
  lemma {:induction false} WithoutKeepsUniqueIds<V>(s: seq<Player<V>>, id: string)
    requires UniqueIds(s)
    ensures UniqueIds(Without(s, id))
  {
    if |s| > 0 {
      var t := s[1..];
      assert forall j :: 0 <= j < |t| ==> t[j] == s[j + 1];
      WithoutKeepsUniqueIds(t, id);
      if s[0].id != id {
        forall k | 0 <= k < |t| ensures t[k].id != s[0].id {
          assert s[0].id != s[k + 1].id;
        }
        WithoutAvoidsId(t, id, s[0].id);
      }
    }
  }

  /** An id no record carries is carried by no record `filter` keeps. */
  lemma WithoutAvoidsId<V>(s: seq<Player<V>>, id: string, other: string)
    requires forall k :: 0 <= k < |s| ==> s[k].id != other
    ensures forall j :: 0 <= j < |Without(s, id)| ==> Without(s, id)[j].id != other
  {
  }

  /** PATCH (and PUT on an existing id) keeps the ids unique. */
  lemma PatchedKeepsUniqueIds<V>(s: seq<Player<V>>, id: string, b: Body<V>)
    requires UniqueIds(s)
    ensures UniqueIds(Patched(s, id, b))
  {
  }

  /** Pushing a record whose id is not in use keeps the ids unique. */
  lemma AppendKeepsUniqueIds<V>(s: seq<Player<V>>, p: Player<V>)
    requires UniqueIds(s) && !HasId(s, p.id)
    ensures UniqueIds(s + [p])
  {
  }
}
