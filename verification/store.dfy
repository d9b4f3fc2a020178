/** The process-wide record store `UserList` of main.go, its seeding in `init`, and the
    resolvers `userList`, `createUser` and `updateUser` that read and change it. The
    `user` resolver is the pure `Users.Lookup` over `users`. */
module Store {
  import opened Wrappers
  import opened Users
  import IdGen

  class UserStore {
    /** The ordered records; grows only at the end, usernames are overwritten in place. */
    var users: seq<User>

    /** Every record carries a non-empty identifier. */
    ghost predicate Valid()
      reads this
    {
      IdsNonEmpty(users)
    }

    /** `init`: appends the three seed records to the empty store. */
    constructor ()
      ensures Valid()
      ensures users == [User("a", "Felix"), User("b", "Jan"), User("c", "Gregor")]
      ensures UniqueIds(users)
    {
      users := [];
      users := users + Seed;
    }

    /** The `userList` query: the whole store, in insertion order. */
    function UserList(): (list: seq<User>)
      reads this
      ensures |list| == |users|
      ensures forall i :: 0 <= i < |list| ==> list[i] == users[i]
    {
      users
    }

    /** The `createUser` mutation: generates an identifier of eight lowercase letters from
        the draws `picks` and appends the new record at the end of the store. */
    method CreateUser(username: string, picks: seq<nat>) returns (u: User)
      requires Valid()
      requires |picks| == IdGen.IdLength && IdGen.ValidPicks(picks)
      modifies this
      ensures Valid()
      ensures u == User(IdGen.Spell(picks), username)
      ensures |u.id| == IdGen.IdLength && IdGen.IsLowerWord(u.id)
      ensures users == old(users) + [u]
      ensures !HasId(old(users), u.id) ==> Lookup(users, Some(u.id)) == u
      ensures UniqueIds(old(users)) && !HasId(old(users), u.id) ==> UniqueIds(users)
    {
      var newId := IdGen.RandStringRunes(IdGen.IdLength, picks);
      u := User(newId, username);
      users := users + [u];
      if !HasId(old(users), u.id) {
        LookupAfterAppend(old(users), u);
        if UniqueIds(old(users)) {
          AppendFreshKeepsIds(old(users), u);
        }
      }
    }

    /** The `updateUser` mutation: overwrites the username of the first record whose
        identifier is `id` (an absent username becomes the empty string) and returns that
        record; with no such record the store is unchanged and the empty record returned. */
    method UpdateUser(id: string, username: Option<string>) returns (u: User)
      requires Valid()
      modifies this
      ensures Valid()
      ensures users == Renamed(old(users), id, username.GetOr(""))
      ensures HasId(old(users), id) ==> u == User(id, username.GetOr(""))
      ensures !HasId(old(users), id) ==> u == Empty && users == old(users)
      ensures u == Lookup(users, Some(id))
    {
      var name := username.GetOr("");
      u := Empty;
      var i := 0;
      while i < |users|
        invariant 0 <= i <= |users|
        invariant users == old(users)
        invariant forall j :: 0 <= j < i ==> users[j].id != id
      {
        if users[i].id == id {
          assert IsFirstMatch(users, id, i);
          users := users[i := users[i].(username := name)];
          u := users[i];
          LookupAfterRename(old(users), id, name);
          break;
        }
        i := i + 1;
      }
      RenamedKeepsIds(old(users), id, name);
    }
  }
}
