/** Properties relating several calls of the user service: what a history of
    creates keeps, how delete followed by create breaks id uniqueness, and
    which record a lookup or update reaches when ids repeat. */
module UserServiceFacts {
  import opened Wrappers
  import opened Seqs
  import opened Text
  import opened UserService

  /** The store after creating one record per form, in order. */
  function CreateMany(s: Store, fs: seq<UserForm>): Store
    decreases |fs|
  {
    if |fs| == 0 then s else CreateMany(CreateUser(s, fs[0]).store, fs[1..])
  }

  /** Dense ids are unique. */
  lemma DenseUnique(s: Store)
    requires Dense(s)
    ensures IdsUnique(s)
  {
  }

  /** A history of creates without deletes keeps the ids 1..n in order, so
      they stay unique, and adds exactly one record per create. */
  lemma {:induction false} CreateOnlyHistory(s: Store, fs: seq<UserForm>)
    requires Dense(s)
    ensures Dense(CreateMany(s, fs))
    ensures IdsUnique(CreateMany(s, fs))
    ensures |CreateMany(s, fs)| == |s| + |fs|
    decreases |fs|
  {
    if |fs| > 0 {
      var s1 := CreateUser(s, fs[0]).store;
      assert Dense(s1) by {
        forall i | 0 <= i < |s1| ensures s1[i].id == i + 1 {
          if i < |s| { assert s1[i] == s1[..|s|][i]; }
        }
      }
      CreateOnlyHistory(s1, fs[1..]);
    }
    DenseUnique(CreateMany(s, fs));
  }

  /** From the start-up store, N creates and no deletes list N + 2 records,
      all with distinct ids. */
  lemma SeedThenCreates(fs: seq<UserForm>)
    ensures |GetAllUsers(CreateMany(Seed(), fs)).value| == |fs| + 2
    ensures IdsUnique(GetAllUsers(CreateMany(Seed(), fs)).value)
  {
    CreateOnlyHistory(Seed(), fs);
  }

  /** Deleting an id nobody carries reports false and changes nothing. */
  lemma DeleteAbsent(s: Store, id: int)
    requires !HasId(s, id)
    ensures DeleteUser(s, id) == Reply(s, false)
  {
    FilterLength(s, Other(id));
  }

  /** Deleting from a concatenation deletes from each part. */
  lemma DeleteConcat(a: Store, b: Store, id: int)
    ensures DeleteUser(a + b, id).store == DeleteUser(a, id).store + DeleteUser(b, id).store
  {
    FilterConcat(a, b, Other(id));
  }

  /** Deleting the id of a lone record empties it. */
  lemma DeleteLone(x: User)
    ensures DeleteUser([x], x.id).store == []
  {
  }

  /** A leading part without the id survives a delete untouched. */
  lemma DeleteKeepsPrefix(pre: Store, rest: Store, id: int)
    requires !HasId(pre, id)
    ensures DeleteUser(pre + rest, id).store == pre + DeleteUser(rest, id).store
  {
    DeleteConcat(pre, rest, id);
    DeleteAbsent(pre, id);
  }

  /** A record carrying the id is dropped from the front of the store. */
  lemma DeleteDropsHead(x: User, post: Store)
    requires !HasId(post, x.id)
    ensures DeleteUser([x] + post, x.id).store == post
  {
    DeleteConcat([x], post, x.id);
    DeleteAbsent(post, x.id);
    DeleteLone(x);
  }

  /** Deleting the id of a record that sits between two parts without it
      leaves just the two parts. */
  lemma DeleteBetween(pre: Store, x: User, post: Store)
    requires !HasId(pre, x.id) && !HasId(post, x.id)
    ensures DeleteUser(pre + [x] + post, x.id).store == pre + post
  {
    assert pre + [x] + post == pre + ([x] + post);
    DeleteKeepsPrefix(pre, [x] + post, x.id);
    DeleteDropsHead(x, post);
  }

  /** Deleting an id that only index `i` carries removes exactly that record
      and reports a change. */
  lemma DeleteSingle(s: Store, i: int)
    requires 0 <= i < |s|
    requires forall j :: 0 <= j < |s| && j != i ==> s[j].id != s[i].id
    ensures DeleteUser(s, s[i].id) == Reply(s[..i] + s[i + 1..], true)
  {
    var pre, post := s[..i], s[i + 1..];
    assert !HasId(pre, s[i].id) by {
      forall j | 0 <= j < |pre| ensures pre[j].id != s[i].id {
        assert pre[j] == s[j];
      }
    }
    assert !HasId(post, s[i].id) by {
      forall j | 0 <= j < |post| ensures post[j].id != s[i].id {
        assert post[j] == s[i + 1 + j];
      }
    }
    assert s == pre + [s[i]] + post;
    DeleteBetween(pre, s[i], post);
  }

  /** With unique ids, deleting a present id shrinks the store by one and
      reports true. */
  lemma DeleteWithUniqueIds(s: Store, id: int)
    requires IdsUnique(s)
    requires HasId(s, id)
    ensures |DeleteUser(s, id).store| == |s| - 1
    ensures DeleteUser(s, id).value
  {
    var i :| 0 <= i < |s| && s[i].id == id;
    DeleteSingle(s, i);
  }

  /** After a delete no record carries the id, and deleting it again
      reports false and changes nothing. */
  lemma DeleteIdempotent(s: Store, id: int)
    ensures !HasId(DeleteUser(s, id).store, id)
    ensures DeleteUser(DeleteUser(s, id).store, id) == Reply(DeleteUser(s, id).store, false)
  {
    var d := DeleteUser(s, id).store;
    forall i | 0 <= i < |d| ensures d[i].id != id {
      assert multiset(d)[d[i]] > 0;
    }
    DeleteAbsent(d, id);
  }

  /** On a store with ids 1..n, deleting id k removes exactly the k-th
      record. */
  lemma DeleteFromDense(s: Store, k: int)
    requires Dense(s)
    requires 1 <= k <= |s|
    ensures DeleteUser(s, k) == Reply(s[..k - 1] + s[k..], true)
  {
    DeleteSingle(s, k - 1);
  }

  /** On a store with ids 1..n, deleting an id other than n keeps the last
      record last. */
  lemma DeleteFromDenseKeepsLast(s: Store, k: int)
    requires Dense(s)
    requires 1 <= k < |s|
    ensures |DeleteUser(s, k).store| == |s| - 1
    ensures DeleteUser(s, k).store[|s| - 2] == s[|s| - 1]
  {
    DeleteFromDense(s, k);
    var d := s[..k - 1] + s[k..];
    assert d[|s| - 2] == s[k..][|s| - 1 - k];
  }

  /** A create repeats an id whenever the last record already carries
      the id the create assigns, length + 1. */
  lemma CreateRepeatsLastId(d: Store, f: UserForm)
    requires |d| > 0 && d[|d| - 1].id == |d| + 1
    ensures var s2 := CreateUser(d, f).store;
      s2[|d| - 1].id == s2[|d|].id == |d| + 1 && !IdsUnique(s2)
  {
    var s2 := CreateUser(d, f).store;
    assert s2[|d| - 1] == s2[..|d|][|d| - 1];
  }

  /** Id assignment by length is not injective once something was deleted:
      on a store with ids 1..n, deleting any id but the last and then
      creating gives the new record the id the old last record still has. */
  lemma DeleteThenCreateDuplicates(s: Store, k: int, f: UserForm)
    requires Dense(s)
    requires 1 <= k < |s|
    ensures var s2 := CreateUser(DeleteUser(s, k).store, f).store;
      |s2| == |s| && s2[|s| - 2].id == s2[|s| - 1].id == |s| && !IdsUnique(s2)
  {
    DeleteFromDenseKeepsLast(s, k);
    CreateRepeatsLastId(DeleteUser(s, k).store, f);
  }

  /** The concrete case: from the start-up store, deleting id 1 and creating
      a record leaves the ids [2, 2]. */
  lemma SeedDuplicateWitness(f: UserForm)
    ensures Ids(CreateUser(DeleteUser(Seed(), 1).store, f).store) == [2, 2]
  {
  }

  /** When the id a create assigns was not in use, looking it up afterwards
      returns exactly the created record. */
  lemma GetAfterCreate(s: Store, f: UserForm)
    requires !HasId(s, |s| + 1)
    ensures GetUserById(CreateUser(s, f).store, |s| + 1).value == Some(CreateUser(s, f).value)
  {
  }

  /** When the assigned id was already in use, the lookup finds the older
      record: on the start-up store, after deleting id 1 and creating a
      record, looking up id 2 yields the original second seed record. */
  lemma SeedLookupAfterDuplicate(f: UserForm)
    ensures GetUserById(CreateUser(DeleteUser(Seed(), 1).store, f).store, 2).value == Some(Seed()[1])
  {
  }

  /** Deleting an id that every record carries empties the store, and
      reports true unless the store was already empty. */
  lemma DeleteEveryMatch(s: Store, id: int)
    requires forall i :: 0 <= i < |s| ==> s[i].id == id
    ensures DeleteUser(s, id) == Reply([], |s| > 0)
  {
    if |s| > 0 {
      assert s[0].id == id;
    }
  }

  /** With the ids [2, 2] that delete(1) and a create leave on the seed,
      update(2) rewrites only the first of the two records. */
  lemma SeedDuplicateUpdate(f: UserForm, g: UserForm)
    ensures var s2 := CreateUser(DeleteUser(Seed(), 1).store, f).store;
      UpdateUser(s2, 2, g).store == [User(2, g.name, g.email, g.phone, g.address), s2[1]]
  {
    SeedDuplicateWitness(f);
    var s2 := CreateUser(DeleteUser(Seed(), 1).store, f).store;
    assert FirstMatch(s2, 2, 0);
    var r := UpdateUser(s2, 2, g);
    var i :| FirstMatch(s2, 2, i) && RewrittenAt(s2, r.store, i, g) && r.value == Some(r.store[i]);
    assert i == 0;
  }

  /** With the same ids [2, 2], delete(2) removes both records. */
  lemma SeedDuplicateDelete(f: UserForm)
    ensures DeleteUser(CreateUser(DeleteUser(Seed(), 1).store, f).store, 2) == Reply([], true)
  {
    SeedDuplicateWitness(f);
    DeleteEveryMatch(CreateUser(DeleteUser(Seed(), 1).store, f).store, 2);
  }

  /** An update keeps every id where it was. */
  lemma UpdateKeepsIds(s: Store, id: int, f: UserForm)
    ensures Ids(UpdateUser(s, id, f).store) == Ids(s)
  {
  }

  /** After an update of a present id, looking the id up returns the record
      the update returned. */
  lemma GetAfterUpdate(s: Store, id: int, f: UserForm)
    requires HasId(s, id)
    ensures GetUserById(UpdateUser(s, id, f).store, id).value == UpdateUser(s, id, f).value
  {
  }

  /** Updating twice with the same form is the same as updating once. */
  lemma UpdateIdempotent(s: Store, id: int, f: UserForm)
    ensures UpdateUser(UpdateUser(s, id, f).store, id, f) == UpdateUser(s, id, f)
  {
  }

  /** The empty query matches every record. */
  lemma SearchEmptyQuery(s: Store)
    ensures SearchUsers(s, "").value == s
  {
    var p := (u: User) => NameMatches(u, "");
    forall i | 0 <= i < |s| ensures p(s[i]) {
      IncludesEmpty(Lower(s[i].name));
    }
    FilterLength(s, p);
  }

  /** The search does not depend on the case of the query: an already
      lower-cased query finds the same records. */
  lemma SearchIgnoresQueryCase(s: Store, q: string)
    ensures SearchUsers(s, Lower(q)).value == SearchUsers(s, q).value
  {
    LowerIdempotent(q);
    var t := SearchUsers(s, Lower(q)).value;
    assert forall u :: NameMatches(u, Lower(q)) == NameMatches(u, q);
    FilterUnique(s, Matching(q), t);
  }

  /** Searching a two-record store keeps each record exactly when its
      name matches. */
  lemma SearchPair(a: User, b: User, q: string)
    ensures SearchUsers([a, b], q).value
      == (if NameMatches(a, q) then [a] else []) + (if NameMatches(b, q) then [b] else [])
  {
    FilterPair(a, b, Matching(q));
  }

  /** A query that matches no record's name finds nothing. */
  lemma SearchMatchingNothing(s: Store, q: string)
    requires forall i :: 0 <= i < |s| ==> !NameMatches(s[i], q)
    ensures SearchUsers(s, q).value == []
  {
  }

  // The seed lemmas below take the store (and the query) as parameters
  // pinned by `requires` instead of writing `Seed()` and string literals in
  // their postconditions: that keeps the solver from evaluating the literal
  // strings everywhere, which makes these proofs much cheaper.

  /** Which start-up records a query finds, given which names it matches. */
  lemma SearchSeedBy(s: Store, q: string)
    requires s == Seed()
    ensures SearchUsers(s, q).value
      == (if NameMatches(s[0], q) then [s[0]] else [])
       + (if NameMatches(s[1], q) then [s[1]] else [])
  {
    SearchPair(s[0], s[1], q);
  }

  /** A name in which no character lower-cases to the lower-cased form of
      some query character does not match the query. */
  lemma NameLacksQueryChar(u: User, q: string, k: int)
    requires 0 <= k < |q|
    requires forall i :: 0 <= i < |u.name| ==> LowerChar(u.name[i]) != LowerChar(q[k])
    ensures !NameMatches(u, q)
  {
    MissingCharExcludes(Lower(u.name), Lower(q), LowerChar(q[k]));
  }

  /** A name that starts with the query, up to the case of ASCII letters,
      matches it. */
  lemma NameStartsWithQuery(u: User, q: string)
    requires |q| <= |u.name|
    requires forall i :: 0 <= i < |q| ==> LowerChar(u.name[i]) == LowerChar(q[i])
    ensures NameMatches(u, q)
  {
    assert Lower(u.name)[..|q|] == Lower(q);
    assert OccursAt(Lower(u.name), Lower(q), 0);
  }

  /** "abdullah" is a prefix of the first seed name, "Abdullah Şahin". */
  lemma FirstNameHasAbdullah(u: User, q: string)
    requires u.name == "Abdullah Şahin" && q == "abdullah"
    ensures NameMatches(u, q)
  {
    NameStartsWithQuery(u, q);
  }

  /** "BERAT" is a prefix of the second seed name, "Berat Özbay", up to case. */
  lemma SecondNameHasBerat(u: User, q: string)
    requires u.name == "Berat Özbay" && q == "BERAT"
    ensures NameMatches(u, q)
  {
    NameStartsWithQuery(u, q);
  }

  /** A seed name without `q[k]` in either case does not match `q`. */
  lemma SeedNameLacks(u: User, q: string, k: int)
    requires u.name == "Abdullah Şahin" || u.name == "Berat Özbay"
    requires q == "abdullah" || q == "BERAT" || q == "xyz"
    requires k == (if q == "xyz" then 0 else 2)
    requires q == "abdullah" ==> u.name == "Berat Özbay"
    requires q == "BERAT" ==> u.name == "Abdullah Şahin"
    ensures !NameMatches(u, q)
  {
    NameLacksQueryChar(u, q, k);
  }

  /** Lower-casing covers only ASCII, so "şahin" does not find "Abdullah
      Şahin": `Ş` stays a capital and never meets the query's `ş`. */
  lemma NonAsciiCaseMisses(u: User, q: string)
    requires u.name == "Abdullah Şahin" && q == "şahin"
    ensures !NameMatches(u, q)
  {
    NameLacksQueryChar(u, q, 0);
  }

  /** On the start-up store, "abdullah" matches only the first name. */
  lemma QueryByFirstName(s: Store, q: string)
    requires s == Seed() && q == "abdullah"
    ensures SearchUsers(s, q).value == [s[0]]
  {
    FirstNameHasAbdullah(s[0], q);
    SeedNameLacks(s[1], q, 2);
    SearchSeedBy(s, q);
  }

  /** On the start-up store, "BERAT" matches only the second name: case does
      not matter. */
  lemma QueryInCapitals(s: Store, q: string)
    requires s == Seed() && q == "BERAT"
    ensures SearchUsers(s, q).value == [s[1]]
  {
    SecondNameHasBerat(s[1], q);
    SeedNameLacks(s[0], q, 2);
    SearchSeedBy(s, q);
  }

  /** On the start-up store, "xyz" matches no name. */
  lemma QueryMatchingNothing(s: Store, q: string)
    requires s == Seed() && q == "xyz"
    ensures SearchUsers(s, q).value == []
  {
    SearchMatchingNothing(s, q) by {
      SeedNameLacks(s[0], q, 0);
      SeedNameLacks(s[1], q, 0);
    }
  }
}
