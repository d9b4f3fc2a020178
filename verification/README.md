# user-graphql record store and resolvers, in Dafny

This project models the core of a small GraphQL user service written in Go (`main.go`):
an in-memory, ordered store of user records (`UserList`), seeded at start-up with three
records, and the four resolvers that read and change it.

- `user(id)` returns the first record whose `ID` equals the argument. It returns the
  empty record `User{}` when nothing matches, or when the argument is missing or not a string.
- `userList` returns the whole store in insertion order.
- `createUser(username)` generates an identifier of eight lowercase letters
  (`RandStringRunes(8)`), appends the new record and returns it.
- `updateUser(id, username)` overwrites the username of the first record with that `ID`
  in place and returns that record. An absent username becomes `""`. When nothing matches,
  it changes nothing and returns `User{}`.

Layout:

- `wrappers.dfy`, module `Wrappers`: `Option`. An absent argument, or one that is not a
  string, is `None`.
- `users.dfy`, module `Users`: the `User` record and the empty record. It also holds the
  seed, the first-match scan `FirstMatch`, and `Lookup`, which is the `user` resolver over
  the store's contents. `Renamed` gives the store after `updateUser`. The rest are lemmas:
  the create-then-query round trip, the update-then-query result, idempotence of update,
  and identifier uniqueness.
- `idgen.dfy`, module `IdGen`: the alphabet, and `RandStringRunes` as a loop that fills a
  rune array. It is specified by `Spell`. `PicksOf` inverts `Spell`.
- `store.dfy`, module `Store`: class `UserStore`. Its field `users` is the store. The
  constructor is `init`, and `UserList`, `CreateUser` and `UpdateUser` are the resolvers.
  `UpdateUser` keeps the source's index loop with `break`.

The pseudo-random draws `rand.Intn(26)` are a parameter `picks`: one index per letter,
each below 26.

The class invariant `Valid()` states that every identifier is non-empty. Identifiers are
meant to be unique, but the code does not enforce it: the result of `RandStringRunes(8)`
(main.go:101) is never checked against the store, so a new identifier may collide with an
existing one. The model therefore does not assume uniqueness. It proves that uniqueness is
kept whenever the generated identifier is new (`AppendFreshKeepsIds`, `CreateUser`), and
that an update never affects it (`RenamedKeepsIds`).

## Model

| member | source | states |
|---|---|---|
| `Users.FirstMatch` | main.go:68-72 | the result is the position of the FIRST record with the given `ID`; the result is `None` exactly when no record has that `ID` |
| `Users.Lookup` | main.go:65-76 | `user`: an absent or non-string argument gives `User{}`; an unknown id gives `User{}`; otherwise the result is the record at the first match |
| `Users.Renamed` | main.go:126-132 | `updateUser`'s effect: the length and every `ID` stay the same; with no match the store is unchanged; on a match the first matching record becomes `{id, name}` and every other record is unchanged |
| `Users.LookupAfterAppend` | main.go:99-107 | create-then-query round trip: after appending a record under an id the store did not hold, `user(id)` returns that record |
| `Users.LookupStableUnderAppend` | main.go:106 | appending a record does not change what `user` returns for an id the store already held |
| `Users.LookupAfterRename` | main.go:126-134 | after `updateUser(id, name)` hits, `user(id)` returns `{id, name}`, the record `updateUser` returned |
| `Users.RenamedIdempotent` | main.go:126-132 | two `updateUser` calls with the same arguments leave the same store as one call |
| `Users.AppendFreshKeepsIds` | main.go:101-106 | appending a record with a new, non-empty id keeps the ids unique and non-empty |
| `Users.RenamedKeepsIds` | main.go:126-132 | an update keeps the ids unique and non-empty if, and only if, they were before |
| `Users.SeedFacts` | main.go:24-28 | the seeded ids are unique and non-empty; `user("b")` is `{b, Jan}`; `user("z")` is `User{}` |
| `IdGen.AlphabetInOrder` | main.go:22 | `letterRunes` has 26 runes: `a` to `z`, in order |
| `IdGen.Spell` | main.go:34-40 | the identifier the draws produce has one character per draw; each character is `letterRunes[draw]` and is a lowercase letter |
| `IdGen.SpellPicksOf` | main.go:34-40 | every lowercase word is an identifier that some sequence of draws produces |
| `IdGen.PicksOfSpell` | main.go:34-40 | different draw sequences produce different identifiers |
| `IdGen.RandStringRunes` | main.go:34-40 | the rune buffer filled by the loop spells the draws: exactly `n` characters, all lowercase letters |
| `Store.UserStore.constructor` | main.go:24-28 | `init`: the store is exactly `[{a,Felix}, {b,Jan}, {c,Gregor}]` in that order, and its ids are unique and non-empty |
| `Store.UserStore.UserList` | main.go:81-83 | `userList`: the store itself, with the same length and the same record at every position |
| `Store.UserStore.CreateUser` | main.go:99-108 | `createUser`: the returned record has the 8-letter lowercase id the draws spell and the given username; the new store is the old one with exactly that record appended; if the id is new, `user(id)` then finds the record and unique ids stay unique |
| `Store.UserStore.UpdateUser` | main.go:121-135 | `updateUser`: the new store is `Renamed(old, id, username or "")`. On a hit it returns `{id, username}`; on a miss the store is unchanged and it returns `User{}`. Either way the result is what `user(id)` returns afterwards |

## Left out

- The HTTP server is not modelled: `main`, the method switch, `setHTTPHeaders`, JSON request decoding and response encoding (main.go:156-200). These are I/O.
- The graphql-go library is not modelled: `graphql.Do`, `executeQuery` and the construction of the schema (`userType`, `rootQuery`, `rootMutation`, `NewSchema`). This library parses, validates and executes queries. Each resolver is a Dafny member over typed arguments. The non-null arguments (`username` of `createUser`, `id` of `updateUser`) are plain strings, because the library rejects a query that omits them before any resolver runs.
- The dynamic argument map and the Go type assertion `.(string)` become `Option<string>`: a missing or non-string argument is `None`.
- Time-seeded randomness is not modelled: `rand.Seed(time.Now().UnixNano())` and `rand.Intn`. The draws are the input `picks`, each below 26. Their uniform distribution, and so the collision probability, is not modelled.
- IdGen.RandStringRunes: takes `n` as a natural number, so the panic of `make` on a negative length is not modelled (the only caller passes 8).
- Unsynchronised concurrent access to the global `UserList` is not modelled. Each operation is one atomic step on the `UserStore` object.
- The console logging is not modelled: `fmt.Printf` of query errors and the start-up messages.
- The store is a `seq<User>` that the methods reassign. The aliasing of Go slice backing arrays is not modelled. `userList` (main.go:82) returns the slice `UserList` itself, which shares its backing array with the store, and `updateUser` writes into that array in place (main.go:128). The sharing cannot be observed here, because each request's result is fully serialised before another resolver runs; the concurrent case is left out above.
