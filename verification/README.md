# User store model

This project models the service layer of a small user-management admin
screen. The layer is an in-memory, ordered list of user records. It is seeded
with two records at start-up and has six operations: list all, find by id,
create, update by id, delete by id, and search by name.

The original keeps the list in a module-level mutable array. Here the store
is an explicit value `seq<User>`. Every operation takes the current store and
returns a `Reply(store, value)`: the store after the call and the call's
result. "Not found" is `None` where the original returns `undefined`.

Ids are assigned as "current length + 1", exactly as in the original. Deletion
removes every record carrying the id. Together these can give two records the
same id. The model does not assume ids are unique. It proves the following:

- a history of creates alone keeps the ids 1..n, so they stay unique;
- on such a store with n records, deleting an id k with 1 <= k < n and then
  creating a record repeats the id n; from the seed, deleting id 1 and then
  creating a record leaves the ids `[2, 2]`;
- lookup and update reach the *first* record with the id, while delete
  removes *all* of them.

Further facts about `src/services/userService.ts`:

- The seed is the two records at lines 6-9.
- Delete shrinks the store by exactly one record when exactly one record
  carries the id (`DeleteSingle`). Unique ids are one way to guarantee that
  (`DeleteWithUniqueIds`).
- A lookup after a create returns the new record when the assigned id was
  unused (`GetAfterCreate`). `SeedLookupAfterDuplicate` shows the case where
  the id was already in use.

Files:

- `wrappers.dfy`: `Option`.
- `seqs.dfy`: an order-preserving `Filter`, the model of `Array.prototype.filter`.
  Its contract says the result is a subsequence of the input. It also fixes
  how often each element appears in the result. `FilterUnique` proves that
  this contract determines the result completely.
- `text.dfy`: `toLowerCase` (ASCII letters only) and `includes`.
- `user_service.dfy`: the records, the seed and the six operations.
- `user_service_facts.dfy`: lemmas that relate several calls.

## Model

| member | source | states |
|---|---|---|
| UserService.Seed | src/services/userService.ts:6-9 | the start-up store holds exactly two records, with ids 1 and 2 in that order (ids equal to position + 1) |
| UserService.GetAllUsers | src/services/userService.ts:11-14 | listing returns the whole store in order and does not change it |
| UserService.FindIndex | src/services/userService.ts:33-34 | the index found is the first one whose record carries the id; none is found exactly when no record carries it |
| UserService.GetUserById | src/services/userService.ts:16-19 | returns the first record carrying the id, or None exactly when no record carries it; the store is unchanged |
| UserService.CreateUser | src/services/userService.ts:21-29 | the store grows by one record appended at the end; earlier records are untouched; the new record has id old length + 1 and the form's four fields, and is what is returned |
| UserService.UpdateUser | src/services/userService.ts:31-38 | an absent id gives None and the same store; otherwise only the first record carrying the id is rewritten (id kept, four form fields taken), length and all other records unchanged, and the rewritten record is returned |
| UserService.DeleteUser | src/services/userService.ts:40-45 | the new store is a subsequence of the old one holding every record whose id differs, as often as before, and no record with the id; the result is true exactly when some record carried the id |
| UserService.SearchUsers | src/services/userService.ts:47-52 | the result is a subsequence of the store holding every record whose lower-cased name contains the lower-cased query, as often as in the store, and nothing else; the store is unchanged |
| Seqs.Filter | src/services/userService.ts:43 | filtering keeps the order of the surviving elements and keeps exactly the elements satisfying the predicate, each as often as in the input |
| Seqs.FilterUnique | src/services/userService.ts:43 | any subsequence with the multiplicities that Filter promises is the filtered sequence, so the contract of Filter leaves no freedom |
| Seqs.FilterLength | src/services/userService.ts:44 | filtering never grows a sequence; it keeps the length exactly when every element passes, and then returns the input itself |
| Seqs.FilterMembership | src/services/userService.ts:43 | an element is in the filtered sequence exactly when it is in the input and passes the predicate |
| Seqs.FilterConcat | src/services/userService.ts:43 | filtering a concatenation is the concatenation of the filtered parts |
| Text.Lower | src/services/userService.ts:50 | lower-casing keeps the length, turns each ASCII capital A-Z into the matching small letter a-z, and leaves every other character unchanged |
| Text.LowerChar | src/services/userService.ts:50 | an ASCII capital maps to its small letter, and every other character maps to itself |
| Text.LowerIdempotent | src/services/userService.ts:50 | lower-casing twice gives the same string as lower-casing once |
| Text.Includes | src/services/userService.ts:50 | the string contains the query exactly when the query occurs at some offset |
| Text.IncludesEmpty | src/services/userService.ts:50 | every string contains the empty string |
| Text.MissingCharExcludes | src/services/userService.ts:50 | a query containing a character the string lacks does not occur in it |
| UserServiceFacts.CreateOnlyHistory | src/services/userService.ts:21-29 | on a store with ids 1..n, any number of creates keeps the ids equal to position + 1 (so unique) and adds one record per create |
| UserServiceFacts.SeedThenCreates | src/services/userService.ts:6-29 | from the seed, N creates and no deletes list N + 2 records with distinct ids |
| UserServiceFacts.DeleteAbsent | src/services/userService.ts:40-45 | deleting an id no record carries returns false and leaves the store exactly as it was |
| UserServiceFacts.DeleteConcat | src/services/userService.ts:43 | deleting from a concatenated store deletes from each part |
| UserServiceFacts.DeleteSingle | src/services/userService.ts:40-45 | when only index i carries the id, delete removes exactly that record, keeps the others in order and returns true |
| UserServiceFacts.DeleteBetween | src/services/userService.ts:43 | deleting the id of a record flanked by two parts that lack the id leaves exactly the two parts, joined in order |
| UserServiceFacts.DeleteFromDense | src/services/userService.ts:40-45 | on a store with ids 1..n, deleting id k removes exactly the k-th record and returns true |
| UserServiceFacts.DeleteWithUniqueIds | src/services/userService.ts:40-45 | with unique ids, deleting a present id shrinks the store by exactly one and returns true |
| UserServiceFacts.DeleteIdempotent | src/services/userService.ts:40-45 | after a delete no record carries the id, and a second delete returns false and changes nothing |
| UserServiceFacts.CreateRepeatsLastId | src/services/userService.ts:24-27 | when the last record already carries id length + 1, a create appends a second record with that id, so ids stop being unique |
| UserServiceFacts.DeleteThenCreateDuplicates | src/services/userService.ts:21-45 | on a store with ids 1..n, deleting any id but the last and then creating gives the new record the id n, which the old last record still carries, so ids are no longer unique |
| UserServiceFacts.SeedDuplicateWitness | src/services/userService.ts:6-45 | from the seed, delete(1) and then create leaves the ids [2, 2] |
| UserServiceFacts.GetAfterCreate | src/services/userService.ts:16-29 | when the assigned id was unused, looking it up after the create returns exactly the created record |
| UserServiceFacts.SeedLookupAfterDuplicate | src/services/userService.ts:6-45 | from the seed, after delete(1) and a create, looking up id 2 returns the original second seed record, not the new one (first match wins) |
| UserServiceFacts.DeleteEveryMatch | src/services/userService.ts:40-45 | deleting an id every record carries empties the store and returns true unless it was already empty |
| UserServiceFacts.SeedDuplicateUpdate | src/services/userService.ts:6-38 | from the seed, after delete(1) and a create (ids [2, 2]), update(2) rewrites the first record only and leaves the second as it was |
| UserServiceFacts.SeedDuplicateDelete | src/services/userService.ts:6-45 | from the seed, after delete(1) and a create (ids [2, 2]), delete(2) removes both records and returns true |
| UserServiceFacts.UpdateKeepsIds | src/services/userService.ts:36 | an update leaves the sequence of ids unchanged |
| UserServiceFacts.GetAfterUpdate | src/services/userService.ts:16-38 | after updating a present id, looking it up returns the record the update returned |
| UserServiceFacts.UpdateIdempotent | src/services/userService.ts:31-38 | updating twice with the same form gives the same store and result as updating once |
| UserServiceFacts.SearchIgnoresQueryCase | src/services/userService.ts:47-51 | searching with the lower-cased query returns the same records as searching with the query itself |
| UserServiceFacts.SearchPair | src/services/userService.ts:47-51 | on a two-record store, the search keeps each record exactly when its name matches, in store order |
| UserServiceFacts.SearchSeedBy | src/services/userService.ts:6-51 | on the seed, a search returns the first record if its name matches, followed by the second if its name matches |
| UserServiceFacts.NameLacksQueryChar | src/services/userService.ts:50 | a name none of whose characters lower-cases to the lower-cased form of some query character does not match the query |
| UserServiceFacts.NameStartsWithQuery | src/services/userService.ts:50 | a name that begins with the query, ignoring the case of ASCII letters, matches it |
| UserServiceFacts.SearchEmptyQuery | src/services/userService.ts:47-51 | the empty query returns every record, in store order |
| UserServiceFacts.QueryByFirstName | src/services/userService.ts:6-51 | on the seed, searching "abdullah" returns exactly the first record |
| UserServiceFacts.QueryInCapitals | src/services/userService.ts:6-51 | on the seed, searching "BERAT" returns exactly the second record, whose name is written "Berat" |
| UserServiceFacts.NonAsciiCaseMisses | src/services/userService.ts:50 | with ASCII-only lower-casing, the query "şahin" does not match the name "Abdullah Şahin" |
| UserServiceFacts.QueryMatchingNothing | src/services/userService.ts:6-51 | on the seed, searching "xyz" returns nothing |
| UserServiceFacts.SearchMatchingNothing | src/services/userService.ts:47-51 | on any store, a query that matches no record's name returns an empty list |

## Left out

- `src/app/page.tsx`: React UI state, dialogs, grid columns and error logging. It has no logic beyond calling the service and reloading the list.
- `async` and `'use server'`: every operation is a synchronous pure function of the store. There is no concurrency in the original to model.
- Text.Lower: maps only the ASCII letters A-Z. JavaScript's `toLowerCase` also maps non-ASCII capitals such as `Ş`, `Ö` and `İ`. The runtime's Unicode case tables are not part of this model. On the seed data this means the query "şahin" does not find "Abdullah Şahin" in the model (`NonAsciiCaseMisses`), although the original would find it. JavaScript's `toLowerCase` can also change a string's length (`İ` becomes `i` followed by a combining dot, two code units), while `Lower` always keeps the length.
- Ids are mathematical integers. The original's ids are JavaScript numbers, but the service only ever stores whole numbers, and comparison is `===`.
- The `@/types/user` definitions are not part of this model. `User` is taken as an id plus four strings, and the form as the same four strings without the id, matching how the UI builds them.
- GetAllUsers returns the same array object that the store holds, so a caller could mutate the store through it. Value semantics has no aliasing, so this is not modelled.
- Spreading (`...userData`) copies exactly the four form fields. No extra runtime properties are modelled.
