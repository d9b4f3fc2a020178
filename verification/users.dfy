/** User records and the read-only operations over the ordered record store
    (`User`, `UserList`, and the `user` resolver of main.go). */
module Users {
  import opened Wrappers

  /** One user record: `ID` is assigned at creation, `Username` may be overwritten. */
  datatype User = User(id: string, username: string)

  /** Go's zero value `User{}`, returned by the resolvers when nothing matches. */
  const Empty: User := User("", "")

  /** The records the store holds at process start, in this order. */
  const Seed: seq<User> := [User("a", "Felix"), User("b", "Jan"), User("c", "Gregor")]

  /** Some record of `users` carries the identifier `id`. */
  ghost predicate HasId(users: seq<User>, id: string) {
    exists k :: 0 <= k < |users| && users[k].id == id
  }

  /** Position `k` holds the first record whose identifier is `id`. */
  ghost predicate IsFirstMatch(users: seq<User>, id: string, k: int) {
    && 0 <= k < |users|
    && users[k].id == id
    && forall j :: 0 <= j < k ==> users[j].id != id
  }

  /** No two records share an identifier. */
  ghost predicate UniqueIds(users: seq<User>) {
    forall i, j :: 0 <= i < j < |users| ==> users[i].id != users[j].id
  }

  /** Every record has a non-empty identifier. */
  ghost predicate IdsNonEmpty(users: seq<User>) {
    forall i :: 0 <= i < |users| ==> users[i].id != ""
  }

  /** At most one position is the first match of an identifier. */
  lemma FirstMatchUnique(users: seq<User>, id: string, k: int, k': int)
    requires IsFirstMatch(users, id, k) && IsFirstMatch(users, id, k')
    ensures k == k'
  {
  }

  /** The linear scan of the store: the position of the first record with identifier
      `id`, or `None` when there is none. */
  function FirstMatch(users: seq<User>, id: string): (r: Option<nat>)
    ensures r.Some? ==> IsFirstMatch(users, id, r.value)
    ensures r.None? <==> !HasId(users, id)
  {
    if |users| == 0 then None
    else if users[0].id == id then Some(0)
    else
      match FirstMatch(users[1..], id)
      case None =>
        assert forall k :: 1 <= k < |users| ==> users[k] == users[1..][k - 1];
        None
      case Some(k) =>
        assert forall j :: 1 <= j < k + 1 ==> users[j] == users[1..][j - 1];
        Some(k + 1)
  }

  /** The `user` query: the first record whose identifier equals the argument; the empty
      record when the argument is absent (or not a string) or when nothing matches. */
  function Lookup(users: seq<User>, id: Option<string>): (u: User)
    ensures id.None? ==> u == Empty
    ensures id.Some? && !HasId(users, id.value) ==> u == Empty
    ensures forall k :: id.Some? && IsFirstMatch(users, id.value, k) ==> u == users[k]
  {
    match id
    case None => Empty
    case Some(s) =>
      match FirstMatch(users, s)
      case None => Empty
      case Some(k) =>
        assert forall k' :: IsFirstMatch(users, s, k') ==> k' == k by {
          forall k' | IsFirstMatch(users, s, k') { FirstMatchUnique(users, s, k, k'); }
        }
        users[k]
  }

  /** The store after `updateUser(id, name)`: the first record with identifier `id` gets
      the username `name`; with no such record the store is unchanged. */
  function Renamed(users: seq<User>, id: string, name: string): (r: seq<User>)
    ensures |r| == |users|
    ensures forall i :: 0 <= i < |r| ==> r[i].id == users[i].id
    ensures !HasId(users, id) ==> r == users
    ensures forall k :: IsFirstMatch(users, id, k) ==>
              r[k] == User(id, name) && forall i :: 0 <= i < |r| && i != k ==> r[i] == users[i]
  {
    match FirstMatch(users, id)
    case None => users
    case Some(k) =>
      assert forall k' :: IsFirstMatch(users, id, k') ==> k' == k by {
        forall k' | IsFirstMatch(users, id, k') { FirstMatchUnique(users, id, k, k'); }
      }
      users[k := users[k].(username := name)]
  }

  /** Create-then-query round trip: a record appended under an identifier the store did not
      hold is what the `user` query returns for that identifier. */
  lemma LookupAfterAppend(users: seq<User>, u: User)
    requires !HasId(users, u.id)
    ensures Lookup(users + [u], Some(u.id)) == u
  {
    assert IsFirstMatch(users + [u], u.id, |users|);
  }

  /** Appending a record does not change what the `user` query returns for an identifier
      the store already held. */
  lemma LookupStableUnderAppend(users: seq<User>, u: User, id: string)
    requires HasId(users, id)
    ensures Lookup(users + [u], Some(id)) == Lookup(users, Some(id))
  {
    var k := FirstMatch(users, id).value;
    assert IsFirstMatch(users + [u], id, k);
  }

  /** After `updateUser(id, name)` hits, the `user` query for `id` returns the renamed record,
      which is the record `updateUser` itself returns. */
  lemma LookupAfterRename(users: seq<User>, id: string, name: string)
    requires HasId(users, id)
    ensures Lookup(Renamed(users, id, name), Some(id)) == User(id, name)
  {
  }

  /** Repeating `updateUser` with the same arguments leaves the store as one call did. */
  lemma RenamedIdempotent(users: seq<User>, id: string, name: string)
    ensures Renamed(Renamed(users, id, name), id, name) == Renamed(users, id, name)
  {
  }

  /** Appending a record whose identifier is new and non-empty keeps identifiers unique
      and non-empty. */
  lemma AppendFreshKeepsIds(users: seq<User>, u: User)
    requires UniqueIds(users) && IdsNonEmpty(users)
    requires !HasId(users, u.id) && u.id != ""
    ensures UniqueIds(users + [u]) && IdsNonEmpty(users + [u])
  {
  }

  /** Renaming never touches identifiers, so it keeps them unique and non-empty. */
  lemma RenamedKeepsIds(users: seq<User>, id: string, name: string)
    ensures UniqueIds(Renamed(users, id, name)) == UniqueIds(users)
    ensures IdsNonEmpty(Renamed(users, id, name)) == IdsNonEmpty(users)
  {
  }

  /** The seeded store: unique non-empty identifiers, `b` is Jan and `z` is unknown. */
  lemma SeedFacts()
    ensures UniqueIds(Seed) && IdsNonEmpty(Seed)
    ensures Lookup(Seed, Some("b")) == User("b", "Jan")
    ensures Lookup(Seed, Some("z")) == Empty
  {
  }
}
