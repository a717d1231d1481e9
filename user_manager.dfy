/**
 * The in-memory user record store of user_manager.py.
 *
 * `UserManager` keeps an ordered sequence of records and mirrors it to a JSON
 * file after every mutation. The file itself is not modelled: the ghost field
 * `persisted` holds the list the file was last loaded from or written with,
 * and whether a write succeeds is a parameter of each mutating method. The new
 * in-memory state of each mutation is a pure function of the old one
 * (`Added`, `StatusUpdated`, `Deleted`), and the lemmas of this module state
 * what those functions keep and change.
 */
module UserManagement {
  import opened Optional

  /** One user record; `created` is the ISO 8601 creation time, taken as given. */
  datatype User = User(id: int, name: string, email: string, age: int, created: string, active: bool)

  /** What `load_users` finds in the backing file. */
  datatype StoredFile = Missing | Malformed | Records(users: seq<User>)

  /** What a mutating operation gives its caller: a boolean, or an IOError escaping from the save. */
  datatype Reply = Returned(ok: bool) | IOError

  /** The arguments of one `add_user` call. */
  datatype AddRequest = AddRequest(name: string, email: string, age: int, created: string)

  // ---------------------------------------------------------------------------
  // Specification of the record list

  /** The list that loading starts from: the file's records, or empty when it is missing or unreadable. */
  function Loaded(f: StoredFile): seq<User> {
    if f.Records? then f.users else []
  }

  ghost predicate EmailsUnique(s: seq<User>) {
    forall i, j :: 0 <= i < j < |s| ==> s[i].email != s[j].email
  }

  /** Record `i` has id `i + 1`: the numbering a store built by adds alone has. */
  ghost predicate IdsSequential(s: seq<User>) {
    forall i :: 0 <= i < |s| ==> s[i].id == i + 1
  }

  predicate EmailTaken(s: seq<User>, email: string) {
    exists i :: 0 <= i < |s| && s[i].email == email
  }

  /** The cases in which `add_user` returns false. */
  predicate AddRejected(s: seq<User>, name: string, email: string, age: int) {
    name == "" || email == "" || age < 0 || EmailTaken(s, email)
  }

  /** The list after `add_user`: unchanged when rejected, else one new active record numbered `|s| + 1`. */
  ghost function Added(s: seq<User>, name: string, email: string, age: int, created: string): (r: seq<User>)
    ensures |s| <= |r| <= |s| + 1 && r[..|s|] == s
  {
    if AddRejected(s, name, email, age) then s
    else s + [User(|s| + 1, name, email, age, created, true)]
  }

  /** The position of the first record with the given id, if any. */
  function FirstIndex(s: seq<User>, id: int): (r: Option<nat>)
    ensures r.Some? ==> r.value < |s| && s[r.value].id == id && forall j :: 0 <= j < r.value ==> s[j].id != id
    ensures r.None? ==> forall j :: 0 <= j < |s| ==> s[j].id != id
  {
    if s == [] then None
    else if s[0].id == id then Some(0)
    else match FirstIndex(s[1..], id)
      case None => None
      case Some(k) => Some(k + 1)
  }

  /** What `get_user_by_id` returns. */
  function UserWithId(s: seq<User>, id: int): (r: Option<User>)
    ensures r.Some? ==> r.value in s && r.value.id == id
    ensures r.None? <==> forall u :: u in s ==> u.id != id
  {
    match FirstIndex(s, id)
    case None => None
    case Some(i) => Some(s[i])
  }

  /** The list after `update_user_status`. */
  ghost function StatusUpdated(s: seq<User>, id: int, status: bool): (r: seq<User>)
    ensures |r| == |s|
    ensures forall j :: 0 <= j < |s| ==> r[j].id == s[j].id && r[j].email == s[j].email
  {
    match FirstIndex(s, id)
    case None => s
    case Some(i) => s[i := s[i].(active := status)]
  }

  /** The list after `delete_user`. */
  ghost function Deleted(s: seq<User>, id: int): (r: seq<User>)
    ensures |r| == if FirstIndex(s, id).Some? then |s| - 1 else |s|
    ensures forall u :: u in r ==> u in s
  {
    match FirstIndex(s, id)
    case None => s
    case Some(i) => s[..i] + s[i + 1..]
  }

  predicate InAgeRange(u: User, lo: int, hi: int) {
    lo <= u.age <= hi
  }

  /** The records of `s` whose age lies in `lo..hi`, in store order. */
  ghost function AgeFilter(s: seq<User>, lo: int, hi: int): (r: seq<User>)
    ensures |r| <= |s|
    ensures forall u :: u in r <==> u in s && InAgeRange(u, lo, hi)
  {
    if s == [] then []
    else
      var p := AgeFilter(s[..|s| - 1], lo, hi);
      assert s == s[..|s| - 1] + [s[|s| - 1]];
      if InAgeRange(s[|s| - 1], lo, hi) then p + [s[|s| - 1]] else p
  }

  /** ASCII lower-casing of one character. */
  function LowerChar(c: char): char {
    if 'A' <= c <= 'Z' then (c as int + 32) as char else c
  }

  function Lower(s: string): string {
    seq(|s|, i requires 0 <= i < |s| => LowerChar(s[i]))
  }

  /** `part` occurs in `text` as a contiguous substring (Python's `part in text`). */
  predicate Contains(text: string, part: string) {
    (|part| <= |text| && text[..|part|] == part) || (text != [] && Contains(text[1..], part))
  }

  predicate NameMatches(u: User, needle: string) {
    Contains(Lower(u.name), needle)
  }

  /** The records of `s` whose lower-cased name contains `needle`, in store order. */
  ghost function NameFilter(s: seq<User>, needle: string): (r: seq<User>)
    ensures |r| <= |s|
    ensures forall u :: u in r <==> u in s && NameMatches(u, needle)
  {
    if s == [] then []
    else
      var p := NameFilter(s[..|s| - 1], needle);
      assert s == s[..|s| - 1] + [s[|s| - 1]];
      if NameMatches(s[|s| - 1], needle) then p + [s[|s| - 1]] else p
  }

  /** What `search_users_by_name` returns. */
  ghost function NameSearch(s: seq<User>, term: string): (r: seq<User>)
    ensures |r| <= |s|
    ensures forall u :: u in r ==> u in s
  {
    if term == "" then [] else NameFilter(s, Lower(term))
  }

  /** The number of active records. */
  function CountActive(s: seq<User>): (n: nat)
    ensures n <= |s|
  {
    if s == [] then 0 else (if s[0].active then 1 else 0) + CountActive(s[1..])
  }

  /** The list after a series of `add_user` calls. */
  ghost function AddAll(s: seq<User>, reqs: seq<AddRequest>): seq<User>
    decreases |reqs|
  {
    if reqs == [] then s
    else AddAll(Added(s, reqs[0].name, reqs[0].email, reqs[0].age, reqs[0].created), reqs[1..])
  }

  /** Every request is valid on its own and no two share an email. */
  ghost predicate AllAcceptable(reqs: seq<AddRequest>) {
    && (forall i :: 0 <= i < |reqs| ==> reqs[i].name != "" && reqs[i].email != "" && reqs[i].age >= 0)
    && (forall i, j :: 0 <= i < j < |reqs| ==> reqs[i].email != reqs[j].email)
  }

  /** The records a series of accepted requests creates when the store holds `base` records. */
  ghost function Created(base: nat, reqs: seq<AddRequest>): seq<User> {
    seq(|reqs|, i requires 0 <= i < |reqs| =>
      User(base + i + 1, reqs[i].name, reqs[i].email, reqs[i].age, reqs[i].created, true))
  }

  // ---------------------------------------------------------------------------
  // The store

  class UserManager {
    /** The records, in insertion order. */
    var users: seq<User>
    /** The list the backing file was last loaded from or written with. */
    ghost var persisted: seq<User>

    /** `__init__` followed by `load_users`. */
    constructor (file: StoredFile)
      ensures users == Loaded(file) && persisted == users
    {
      users := Loaded(file);
      persisted := users;
    }

    /** load_users: replace the list by the file's records, or by the empty list. */
    method LoadUsers(file: StoredFile)
      modifies this
      ensures users == Loaded(file) && persisted == users
    {
      users := Loaded(file);
      persisted := users;
    }

    /** save_users: write the whole list; a write that fails at `open` leaves the file as it was. */
    method SaveUsers(writable: bool) returns (saved: bool)
      modifies this`persisted
      ensures saved == writable
      ensures persisted == if writable then users else old(persisted)
    {
      if writable {
        persisted := users;
      }
      saved := writable;
    }

    method AddUser(name: string, email: string, age: int, created: string, writable: bool) returns (r: Reply)
      modifies this
      ensures users == Added(old(users), name, email, age, created)
      ensures r == if AddRejected(old(users), name, email, age) then Returned(false)
                   else if writable then Returned(true) else IOError
      ensures persisted == if r == Returned(true) then users else old(persisted)
      ensures EmailsUnique(old(users)) ==> EmailsUnique(users)
    {
      if EmailsUnique(users) {
        AddedKeepsEmailsUnique(users, name, email, age, created);
      }
      if name == "" || email == "" {
        return Returned(false);
      }
      if age < 0 {
        return Returned(false);
      }
      for i := 0 to |users|
        invariant forall j :: 0 <= j < i ==> users[j].email != email
      {
        if users[i].email == email {
          return Returned(false);
        }
      }
      users := users + [User(|users| + 1, name, email, age, created, true)];
      var saved := SaveUsers(writable);
      if !saved {
        return IOError;
      }
      return Returned(true);
    }

    /** The loop of get_user_by_id: the position of the first record with the id. */
    method IndexOfUser(id: int) returns (k: Option<nat>)
      ensures k == FirstIndex(users, id)
    {
      for i := 0 to |users|
        invariant forall j :: 0 <= j < i ==> users[j].id != id
      {
        if users[i].id == id {
          return Some(i);
        }
      }
      return None;
    }

    method GetUserById(id: int) returns (u: Option<User>)
      ensures u == UserWithId(users, id)
      ensures u.Some? ==> u.value in users && u.value.id == id
      ensures u.None? <==> forall v :: v in users ==> v.id != id
    {
      var k := IndexOfUser(id);
      match k
      case None =>
        return None;
      case Some(i) =>
        return Some(users[i]);
    }

    method GetUsersByAgeRange(lo: int, hi: int) returns (r: seq<User>)
      ensures r == if lo > hi then [] else AgeFilter(users, lo, hi)
    {
      if lo > hi {
        return [];
      }
      r := [];
      for i := 0 to |users|
        invariant r == AgeFilter(users[..i], lo, hi)
      {
        assert users[..i + 1][..i] == users[..i];
        if lo <= users[i].age <= hi {
          r := r + [users[i]];
        }
      }
      assert users[..|users|] == users;
    }

    method UpdateUserStatus(id: int, status: bool, writable: bool) returns (r: Reply)
      modifies this
      ensures users == StatusUpdated(old(users), id, status)
      ensures r == if FirstIndex(old(users), id).None? then Returned(false)
                   else if writable then Returned(true) else IOError
      ensures persisted == if r == Returned(true) then users else old(persisted)
      ensures EmailsUnique(old(users)) ==> EmailsUnique(users)
    {
      if EmailsUnique(users) {
        StatusUpdatedKeepsEmailsUnique(users, id, status);
      }
      var k := IndexOfUser(id);
      match k
      case None =>
        return Returned(false);
      case Some(i) =>
        users := users[i := users[i].(active := status)];
        var saved := SaveUsers(writable);
        if !saved {
          return IOError;
        }
        return Returned(true);
    }

    method DeleteUser(id: int, writable: bool) returns (r: Reply)
      modifies this
      ensures users == Deleted(old(users), id)
      ensures r == if FirstIndex(old(users), id).None? then Returned(false)
                   else if writable then Returned(true) else IOError
      ensures persisted == if r == Returned(true) then users else old(persisted)
      ensures EmailsUnique(old(users)) ==> EmailsUnique(users)
    {
      if EmailsUnique(users) {
        DeletedKeepsEmailsUnique(users, id);
      }
      for i := 0 to |users|
        invariant users == old(users) && persisted == old(persisted)
        invariant forall j :: 0 <= j < i ==> users[j].id != id
      {
        if users[i].id == id {
          assert FirstIndex(users, id) == Some(i);
          users := users[..i] + users[i + 1..];
          var saved := SaveUsers(writable);
          if !saved {
            return IOError;
          }
          return Returned(true);
        }
      }
      return Returned(false);
    }

    /** get_active_users_count */
    function ActiveUsersCount(): (n: nat)
      reads this
      ensures n <= UserCount()
    {
      CountActive(users)
    }

    method SearchUsersByName(term: string) returns (r: seq<User>)
      ensures r == NameSearch(users, term)
      ensures term == "" ==> r == []
      ensures term != "" ==> forall u :: u in r <==> u in users && Contains(Lower(u.name), Lower(term))
    {
      if term == "" {
        return [];
      }
      r := [];
      var needle := Lower(term);
      for i := 0 to |users|
        invariant r == NameFilter(users[..i], needle)
      {
        assert users[..i + 1][..i] == users[..i];
        if Contains(Lower(users[i].name), needle) {
          r := r + [users[i]];
        }
      }
      assert users[..|users|] == users;
    }

    /**
     * The guard of export_users_to_csv: an empty store, or a target that cannot
     * be written, gives false; the CSV text itself is not modelled.
     */
    method ExportUsersToCsv(targetWritable: bool) returns (ok: bool)
      ensures ok <==> users != [] && targetWritable
    {
      if users == [] {
        return false;
      }
      ok := targetWritable;
    }

    /** get_all_users: a copy, which as a value cannot alias the store. */
    method GetAllUsers() returns (r: seq<User>)
      ensures r == users
    {
      r := users;
    }

    /** get_user_count */
    function UserCount(): (n: nat)
      reads this
      ensures n == |users|
    {
      |users|
    }

    /** clear_all_users: empty the list, then save; `ioError` reports an escaping IOError. */
    method ClearAllUsers(writable: bool) returns (ioError: bool)
      modifies this
      ensures users == []
      ensures ioError == !writable
      ensures persisted == if writable then [] else old(persisted)
    {
      users := [];
      var saved := SaveUsers(writable);
      ioError := !saved;
    }
  }

  // ---------------------------------------------------------------------------
  // Lemmas

  /** A successful add appends exactly one record, numbered by the old length, and keeps the rest. */
  lemma AddedAppendsOne(s: seq<User>, name: string, email: string, age: int, created: string)
    requires !AddRejected(s, name, email, age)
    ensures var r := Added(s, name, email, age, created);
      && |r| == |s| + 1 && r[..|s|] == s
      && r[|s|].id == |s| + 1 && r[|s|].name == name && r[|s|].email == email
      && r[|s|].age == age && r[|s|].created == created && r[|s|].active
  {
  }

  /** A rejected add leaves the list as it was; an email is compared exactly, with case. */
  lemma AddRejectedCases(s: seq<User>, name: string, email: string, age: int, created: string)
    ensures AddRejected(s, name, email, age) <==>
      name == "" || email == "" || age < 0 || exists u :: u in s && u.email == email
    ensures AddRejected(s, name, email, age) ==> Added(s, name, email, age, created) == s
  {
    if exists u :: u in s && u.email == email {
      var u :| u in s && u.email == email;
      var i :| 0 <= i < |s| && s[i] == u;
      assert s[i].email == email;
    }
  }

  lemma AddedKeepsEmailsUnique(s: seq<User>, name: string, email: string, age: int, created: string)
    requires EmailsUnique(s)
    ensures EmailsUnique(Added(s, name, email, age, created))
  {
    if !AddRejected(s, name, email, age) {
      var r := Added(s, name, email, age, created);
      forall i, j | 0 <= i < j < |r| ensures r[i].email != r[j].email {
        if j == |s| {
          assert r[i] == s[i];
          assert !(s[i].email == email);
        }
      }
    }
  }

  lemma StatusUpdatedKeepsEmailsUnique(s: seq<User>, id: int, status: bool)
    requires EmailsUnique(s)
    ensures EmailsUnique(StatusUpdated(s, id, status))
  {
    var r := StatusUpdated(s, id, status);
    assert forall i :: 0 <= i < |s| ==> r[i].email == s[i].email;
  }

  lemma DeletedKeepsEmailsUnique(s: seq<User>, id: int)
    requires EmailsUnique(s)
    ensures EmailsUnique(Deleted(s, id))
  {
    match FirstIndex(s, id)
    case None =>
    case Some(k) =>
      var r := Deleted(s, id);
      forall i, j | 0 <= i < j < |r| ensures r[i].email != r[j].email {
        var i' := if i < k then i else i + 1;
        var j' := if j < k then j else j + 1;
        assert r[i] == s[i'] && r[j] == s[j'];
      }
  }

  /** get_user_by_id gives the first record with the id, or None when no record has it. */
  lemma UserWithIdIsFirstMatch(s: seq<User>, id: int)
    ensures UserWithId(s, id).None? <==> forall u :: u in s ==> u.id != id
    ensures UserWithId(s, id).Some? ==>
      exists i :: 0 <= i < |s| && s[i] == UserWithId(s, id).value && s[i].id == id
        && forall j :: 0 <= j < i ==> s[j].id != id
  {
    if UserWithId(s, id).None? {
      forall u | u in s ensures u.id != id {
        var i :| 0 <= i < |s| && s[i] == u;
      }
    }
  }

  /** update_user_status changes only the status of the first record with the id. */
  lemma StatusUpdatedFrame(s: seq<User>, id: int, status: bool)
    ensures var r := StatusUpdated(s, id, status);
      && |r| == |s|
      && forall j :: 0 <= j < |s| ==>
           r[j] == if FirstIndex(s, id) == Some(j) then s[j].(active := status) else s[j]
    ensures var r := StatusUpdated(s, id, status);
      forall j :: 0 <= j < |s| ==>
        && r[j].id == s[j].id && r[j].name == s[j].name && r[j].email == s[j].email
        && r[j].age == s[j].age && r[j].created == s[j].created
  {
  }

  /**
   * delete_user removes exactly the first record with the id; the records
   * after it move up one place but keep their ids.
   */
  lemma DeletedFrame(s: seq<User>, id: int)
    ensures FirstIndex(s, id).None? ==> Deleted(s, id) == s
    ensures FirstIndex(s, id).Some? ==>
      var k, r := FirstIndex(s, id).value, Deleted(s, id);
      && |r| == |s| - 1 && s[k].id == id
      && (forall j :: 0 <= j < k ==> r[j] == s[j])
      && (forall j :: k <= j < |r| ==> r[j] == s[j + 1])
  {
    match FirstIndex(s, id)
    case None =>
    case Some(k) =>
      var r := s[..k] + s[k + 1..];
      assert |r| == |s| - 1;
      assert forall j :: 0 <= j < k ==> r[j] == s[j];
      assert forall j :: k <= j < |r| ==> r[j] == s[j + 1];
  }

  /** Setting the status of record `i` changes the active count by the difference between its old and new status. */
  lemma {:induction false} CountActiveAfterSet(s: seq<User>, i: nat, status: bool)
    requires i < |s|
    ensures CountActive(s[i := s[i].(active := status)])
         == CountActive(s) - (if s[i].active then 1 else 0) + (if status then 1 else 0)
  {
    var r := s[i := s[i].(active := status)];
    if i > 0 {
      CountActiveAfterSet(s[1..], i - 1, status);
      assert r[1..] == s[1..][i - 1 := s[i].(active := status)];
    } else {
      assert r[1..] == s[1..];
    }
  }

  lemma CountActiveAfterUpdate(s: seq<User>, id: int, status: bool)
    requires FirstIndex(s, id).Some?
    ensures var i := FirstIndex(s, id).value;
      CountActive(StatusUpdated(s, id, status))
        == CountActive(s) - (if s[i].active then 1 else 0) + (if status then 1 else 0)
  {
    CountActiveAfterSet(s, FirstIndex(s, id).value, status);
  }

  /** `part` occurs in `text` starting at position `k`. */
  ghost predicate OccursAt(text: string, part: string, k: int) {
    0 <= k && k + |part| <= |text| && text[k..k + |part|] == part
  }

  /** `Contains` is substring search: it holds exactly when `part` occurs at some position of `text`. */
  lemma {:induction false} ContainsIsSubstring(text: string, part: string)
    ensures Contains(text, part) <==> exists k :: OccursAt(text, part, k)
    decreases |text|
  {
    if |part| <= |text| && text[..|part|] == part {
      assert OccursAt(text, part, 0);
    }
    if text != [] {
      ContainsIsSubstring(text[1..], part);
      forall k | OccursAt(text[1..], part, k)
        ensures OccursAt(text, part, k + 1)
      {
        assert text[1..][k..k + |part|] == text[k + 1..k + 1 + |part|];
      }
      forall k | OccursAt(text, part, k) && k > 0
        ensures OccursAt(text[1..], part, k - 1)
      {
        assert text[1..][k - 1..k - 1 + |part|] == text[k..k + |part|];
      }
    }
  }

  /** Searching is case-insensitive in the term: its ASCII case does not change the result. */
  lemma NameSearchIgnoresTermCase(s: seq<User>, term: string)
    ensures NameSearch(s, Lower(term)) == NameSearch(s, term)
  {
    assert Lower(Lower(term)) == Lower(term);
  }

  /** Adds keep the numbering 1..n, whether they are accepted or rejected. */
  lemma {:induction false} AddAllKeepsIdsSequential(s: seq<User>, reqs: seq<AddRequest>)
    requires IdsSequential(s)
    ensures IdsSequential(AddAll(s, reqs))
    decreases |reqs|
  {
    if reqs != [] {
      var q := reqs[0];
      AddAllKeepsIdsSequential(Added(s, q.name, q.email, q.age, q.created), reqs[1..]);
    }
  }

  /** No request's email is already in the store. */
  ghost predicate EmailsNew(s: seq<User>, reqs: seq<AddRequest>) {
    forall i, j :: 0 <= i < |s| && 0 <= j < |reqs| ==> s[i].email != reqs[j].email
  }

  /** Each request in turn is accepted by the store the earlier ones produced. */
  ghost predicate AcceptedInTurn(s: seq<User>, reqs: seq<AddRequest>)
    decreases |reqs|
  {
    || reqs == []
    || (&& !AddRejected(s, reqs[0].name, reqs[0].email, reqs[0].age)
        && AcceptedInTurn(s + [User(|s| + 1, reqs[0].name, reqs[0].email, reqs[0].age, reqs[0].created, true)], reqs[1..]))
  }

  /** Accepting the first request keeps the rest acceptable and their emails new. */
  lemma AcceptFirst(s: seq<User>, reqs: seq<AddRequest>)
    requires reqs != [] && AllAcceptable(reqs) && EmailsNew(s, reqs)
    ensures !AddRejected(s, reqs[0].name, reqs[0].email, reqs[0].age)
    ensures var q := reqs[0];
      AllAcceptable(reqs[1..]) && EmailsNew(s + [User(|s| + 1, q.name, q.email, q.age, q.created, true)], reqs[1..])
  {
    var q, rest := reqs[0], reqs[1..];
    var u := User(|s| + 1, q.name, q.email, q.age, q.created, true);
    assert forall j :: 0 <= j < |rest| ==> rest[j] == reqs[j + 1];
    assert forall i :: 0 <= i < |s| ==> s[i].email != q.email;
    forall i, j | 0 <= i < |s| + 1 && 0 <= j < |rest| ensures (s + [u])[i].email != rest[j].email {
      if i < |s| {
        assert s[i].email != reqs[j + 1].email;
      } else {
        assert reqs[0].email != reqs[j + 1].email;
      }
    }
  }

  /** Valid requests with distinct emails, none of them in the store, are each accepted in turn. */
  lemma {:induction false} AcceptableInTurn(s: seq<User>, reqs: seq<AddRequest>)
    requires AllAcceptable(reqs) && EmailsNew(s, reqs)
    ensures AcceptedInTurn(s, reqs)
    decreases |reqs|
  {
    if reqs != [] {
      var q := reqs[0];
      AcceptFirst(s, reqs);
      AcceptableInTurn(s + [User(|s| + 1, q.name, q.email, q.age, q.created, true)], reqs[1..]);
    }
  }

  lemma CreatedCons(base: nat, reqs: seq<AddRequest>)
    requires reqs != []
    ensures Created(base, reqs)
         == [User(base + 1, reqs[0].name, reqs[0].email, reqs[0].age, reqs[0].created, true)] + Created(base + 1, reqs[1..])
  {
  }

  /** Requests accepted in turn each append one record, numbered on from the store's length. */
  lemma {:induction false} AddAllAppends(s: seq<User>, reqs: seq<AddRequest>)
    requires AcceptedInTurn(s, reqs)
    ensures AddAll(s, reqs) == s + Created(|s|, reqs)
    decreases |reqs|
  {
    if reqs != [] {
      var q, rest := reqs[0], reqs[1..];
      var u := User(|s| + 1, q.name, q.email, q.age, q.created, true);
      assert Added(s, q.name, q.email, q.age, q.created) == s + [u];
      AddAllAppends(s + [u], rest);
      CreatedCons(|s|, reqs);
      assert (s + [u]) + Created(|s| + 1, rest) == s + ([u] + Created(|s| + 1, rest));
    }
  }

  /** After n accepted adds from an empty store, the records are numbered 1..n in order. */
  lemma AddsFromEmpty(reqs: seq<AddRequest>)
    requires AllAcceptable(reqs)
    ensures var r := AddAll([], reqs);
      && |r| == |reqs|
      && forall i :: 0 <= i < |r| ==>
           r[i] == User(i + 1, reqs[i].name, reqs[i].email, reqs[i].age, reqs[i].created, true)
  {
    AcceptableInTurn([], reqs);
    AddAllAppends([], reqs);
  }

  /**
   * Ids are not unique once a record has been deleted: add three records,
   * delete id 1, and the next add is numbered 3 again.
   */
  lemma IdReusedAfterDelete()
    ensures var three := AddAll([], [AddRequest("A", "a@x", 1, "t1"), AddRequest("B", "b@x", 2, "t2"),
                                     AddRequest("C", "c@x", 3, "t3")]);
      var after := Added(Deleted(three, 1), "D", "d@x", 4, "t4");
      |after| == 3 && after[1].id == 3 && after[2].id == 3
  {
    var reqs := [AddRequest("A", "a@x", 1, "t1"), AddRequest("B", "b@x", 2, "t2"), AddRequest("C", "c@x", 3, "t3")];
    var one := Added([], "A", "a@x", 1, "t1");
    assert one == [User(1, "A", "a@x", 1, "t1", true)];
    var two := Added(one, "B", "b@x", 2, "t2");
    assert !EmailTaken(one, "b@x");
    var three := Added(two, "C", "c@x", 3, "t3");
    assert !EmailTaken(two, "c@x");
    assert AddAll([], reqs) == three by {
      assert reqs[1..] == [reqs[1], reqs[2]] && reqs[1..][1..] == [reqs[2]];
    }
    assert FirstIndex(three, 1) == Some(0);
    var rest := Deleted(three, 1);
    assert rest == [three[1], three[2]];
    assert !EmailTaken(rest, "d@x");
  }

  /**
   * The email check is exact: after "test@example.com" is stored,
   * "TEST@EXAMPLE.COM" is accepted as a different address.
   */
  lemma EmailCheckIsCaseSensitive(created: string)
    ensures var one := Added([], "User 1", "test@example.com", 25, created);
      |one| == 1 && |Added(one, "User 2", "TEST@EXAMPLE.COM", 30, created)| == 2
  {
    var one := Added([], "User 1", "test@example.com", 25, created);
    assert one[0].email[0] != "TEST@EXAMPLE.COM"[0];
    assert !EmailTaken(one, "TEST@EXAMPLE.COM");
  }
}
