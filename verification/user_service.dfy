/** The in-memory user store and its six service operations.
    The store is an ordered sequence of user records; instead of a
    module-level mutable array, every operation takes the current store and
    returns the store after the call together with the call's result. */
module UserService {
  import opened Wrappers
  import opened Seqs
  import opened Text

  /** A stored user record. Ids are JavaScript numbers compared with `===`;
      the service only ever stores whole numbers. */
  datatype User = User(id: int, name: string, email: string, phone: string, address: string)

  /** The form data a caller supplies on create and update: every field
      except the id. */
  datatype UserForm = UserForm(name: string, email: string, phone: string, address: string)

  type Store = seq<User>

  /** The store after an operation, and what the operation returned. */
  datatype Reply<T> = Reply(store: Store, value: T)

  /** The four form fields of a record. */
  function FormOf(u: User): UserForm
  {
    UserForm(u.name, u.email, u.phone, u.address)
  }

  /** The ids of a store, in store order. */
  function Ids(s: Store): (ids: seq<int>)
    ensures |ids| == |s|
    ensures forall i :: 0 <= i < |s| ==> ids[i] == s[i].id
  {
    seq(|s|, i requires 0 <= i < |s| => s[i].id)
  }

  /** Some record of `s` carries `id`. */
  ghost predicate HasId(s: Store, id: int)
  {
    exists i :: 0 <= i < |s| && s[i].id == id
  }

  /** `i` is the first index of `s` whose record carries `id`. */
  ghost predicate FirstMatch(s: Store, id: int, i: int)
  {
    && 0 <= i < |s|
    && s[i].id == id
    && forall j :: 0 <= j < i ==> s[j].id != id
  }

  /** No id occurs twice. */
  ghost predicate IdsUnique(s: Store)
  {
    forall i, j :: 0 <= i < j < |s| ==> s[i].id != s[j].id
  }

  /** The ids are exactly 1, 2, ..., |s| in order: the shape the store has
      when nothing was ever deleted. */
  ghost predicate Dense(s: Store)
  {
    forall i :: 0 <= i < |s| ==> s[i].id == i + 1
  }

  /** The two records the store holds at start-up. */
  function Seed(): (s: Store)
    ensures |s| == 2 && Ids(s) == [1, 2]
    ensures Dense(s)
  {
    [ User(1, "Abdullah Şahin", "sahinabdullah2003@hotmail.com", "05435562456", "İstanbul"),
      User(2, "Berat Özbay", "berat.ozbay@priviasecurity.com", "123456789", "Ataşehir") ]
  }

  /** `getAllUsers`: the whole store, in order; the store is not changed. */
  function GetAllUsers(s: Store): (r: Reply<Store>)
    ensures r.store == s
    ensures r.value == s
  {
    Reply(s, s)
  }

  /** `findIndex(user => user.id === id)`, with -1 read as None: the first
      index carrying `id`, if any. */
  function FindIndex(s: Store, id: int): (r: Option<nat>)
    ensures r.Some? ==> FirstMatch(s, id, r.value)
    ensures r.None? <==> !HasId(s, id)
  {
    if |s| == 0 then None
    else if s[0].id == id then Some(0)
    else
      match FindIndex(s[1..], id)
      case None =>
        assert forall i :: 0 < i < |s| ==> s[i] == s[1..][i - 1];
        None
      case Some(k) =>
        assert forall j :: 0 < j < k + 1 ==> s[j] == s[1..][j - 1];
        Some(k + 1)
  }

  /** `getUserById`: the first record carrying `id`, or None when no record
      does; the store is not changed. */
  function GetUserById(s: Store, id: int): (r: Reply<Option<User>>)
    ensures r.store == s
    ensures r.value.None? <==> !HasId(s, id)
    ensures r.value.Some? ==> exists i :: FirstMatch(s, id, i) && r.value.value == s[i]
  {
    match FindIndex(s, id)
    case None => Reply(s, None)
    case Some(i) => Reply(s, Some(s[i]))
  }

  /** `createUser`: appends a record whose id is the old length plus one and
      whose other fields are the form's; returns that record. */
  function CreateUser(s: Store, f: UserForm): (r: Reply<User>)
    ensures |r.store| == |s| + 1
    ensures r.store[..|s|] == s
    ensures r.store[|s|] == r.value
    ensures r.value.id == |s| + 1 && FormOf(r.value) == f
  {
    var u := User(|s| + 1, f.name, f.email, f.phone, f.address);
    Reply(s + [u], u)
  }

  /** `s2` is `s` with only index `i` rewritten: that record keeps its id
      and takes the four fields of `f`. */
  ghost predicate RewrittenAt(s: Store, s2: Store, i: int, f: UserForm)
  {
    && |s2| == |s|
    && 0 <= i < |s|
    && s2[i].id == s[i].id
    && FormOf(s2[i]) == f
    && forall j :: 0 <= j < |s| && j != i ==> s2[j] == s[j]
  }

  /** `updateUser`: when no record carries `id`, returns None and leaves the
      store alone; otherwise rewrites the first record carrying `id` with the
      form's fields (its id kept) and returns the rewritten record. */
  function UpdateUser(s: Store, id: int, f: UserForm): (r: Reply<Option<User>>)
    ensures !HasId(s, id) ==> r == Reply(s, None)
    ensures HasId(s, id) ==>
      exists i :: FirstMatch(s, id, i) && RewrittenAt(s, r.store, i, f) && r.value == Some(r.store[i])
  {
    match FindIndex(s, id)
    case None => Reply(s, None)
    case Some(i) =>
      var u := User(s[i].id, f.name, f.email, f.phone, f.address);
      var s2 := s[i := u];
      assert RewrittenAt(s, s2, i, f);
      Reply(s2, Some(u))
  }

  /** The filter criterion of `deleteUser`: the record does not carry `id`. */
  function Other(id: int): User -> bool
  {
    (u: User) => u.id != id
  }

  /** `deleteUser`: keeps, in their original order, exactly the records not
      carrying `id` (each as often as before); reports whether the length
      changed, which happens exactly when some record carried `id`. */
  function DeleteUser(s: Store, id: int): (r: Reply<bool>)
    ensures IsSubsequence(r.store, s)
    ensures forall u :: multiset(r.store)[u] == if u.id != id then multiset(s)[u] else 0
    ensures r.value <==> HasId(s, id)
  {
    var kept := Filter(s, Other(id));
    FilterLength(s, Other(id));
    Reply(kept, |kept| != |s|)
  }

  /** The search criterion: the lower-cased name contains the lower-cased
      query. */
  predicate NameMatches(u: User, q: string)
  {
    Includes(Lower(u.name), Lower(q))
  }

  /** The filter criterion of `searchUsers`, as a predicate value. */
  function Matching(q: string): User -> bool
  {
    (u: User) => NameMatches(u, q)
  }

  /** `searchUsers`: the records whose name matches the query
      case-insensitively, in store order; the store is not changed. */
  function SearchUsers(s: Store, q: string): (r: Reply<Store>)
    ensures r.store == s
    ensures IsSubsequence(r.value, s)
    ensures forall u :: multiset(r.value)[u] == if NameMatches(u, q) then multiset(s)[u] else 0
  {
    Reply(s, Filter(s, Matching(q)))
  }
}
