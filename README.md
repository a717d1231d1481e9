# Deduplication and a user record store, in Dafny

This project models the two independent utilities of the repository and proves
properties of the models.

- **`ListOps`** (`list_ops.dfy`) models `remove_duplicates` and
  `remove_duplicates_simple`. Each checks its argument: `None` raises
  `ValueError`, and anything that is not a list raises `TypeError`. An empty list
  comes back empty. Otherwise one loop walks the list, keeps a `seen` set of keys
  and appends every element whose key is new. `remove_duplicates` compares a
  list element by the tuple of its items and a dict element by its sorted items,
  but it stores the original element. `remove_duplicates_simple` compares
  elements directly, so a list or dict element makes it raise `TypeError`
  (unhashable type). Both methods are proved equal to the ghost function
  `Dedup`, which processes the input left to right like the loop. Lemmas tie
  `Dedup` to an independent definition, the subsequence of first occurrences,
  and prove that it has no repeated keys, keeps the input's key set, returns
  duplicate-free input unchanged and is idempotent.
- **`UserManagement`** (`user_manager.dfy`) models the class `UserManager`: an
  ordered list of user records (`id`, `name`, `email`, `age`, `created`,
  `active`) that is rewritten to a JSON file after every mutation. The class
  holds the list as a `seq<User>` field. The ghost field `persisted` is the list
  last loaded or successfully saved. Each mutating method states its new list
  through a pure function of the old list (`Added`, `StatusUpdated`,
  `Deleted`). `AddUser`, `UpdateUserStatus` and `DeleteUser` reply
  `Returned(true/false)` or `IOError`; `ClearAllUsers`, which returns nothing
  in the source, reports only whether an `IOError` escaped from the save.
  Lemmas about those functions give the frame conditions, email uniqueness,
  and the id numbering.

Inputs that come from outside the program are parameters:
- the state of the backing file at load time (`StoredFile`: missing,
  malformed, or a list of records);
- whether a write succeeds (`writable`);
- the creation timestamp (`created`).

Two behaviours of the code worth pointing out (the model follows the code):

- A new record is numbered `len(users_list) + 1` (user_manager.py:101), so
  after a delete the next id can equal an existing one. `IdReusedAfterDelete`
  shows this: add three records, delete id 1, and the next add is numbered 3,
  like the record already there.
- `test_email_case_sensitivity` (test_user_manager.py:395-401) expects
  `"TEST@EXAMPLE.COM"` to be rejected after `"test@example.com"`. The code
  compares emails exactly (user_manager.py:96-98), so the second add is
  accepted. `EmailCheckIsCaseSensitive` proves that outcome.

## Model

| member | source | states |
|---|---|---|
| `ListOps.RemoveDuplicates` | list_ops.py:11-55 | Returns exactly `Dedup` of the list under the list/dict key derivation. `None` gives ValueError("Input list cannot be None") and a non-list gives TypeError("Expected list, got <type>"), both ways round. |
| `ListOps.RemoveDuplicatesSimple` | list_ops.py:58-79 | Same guards. A list or dict element raises TypeError "unhashable type" for the first such element. Otherwise returns `Dedup` under plain equality. |
| `ListOps.ElementKey` | list_ops.py:44-49 | The key an element is compared by: a list is keyed by the tuple of its items, a dict by its items, anything else by itself. |
| `ListOps.SelfKey` | list_ops.py:73-76 | The key of `remove_duplicates_simple`: the element itself, compared by plain equality. |
| `ListOps.NoneMessage` | list_ops.py:29-30 | The message of the ValueError for a `None` argument: "Input list cannot be None" (also list_ops.py:63-64). |
| `ListOps.NotAListMessage` | list_ops.py:31-32 | The message of the TypeError for a non-list: "Expected list, got " followed by the type's name (also list_ops.py:65-66). |
| `ListOps.UnhashableMessage` | list_ops.py:74-75 | The message Python's `set` gives when membership meets a list or a dict: "unhashable type: 'list'" or "unhashable type: 'dict'". |
| `ListOps.Deduplicated` | list_ops.py:29-55 | What `remove_duplicates` returns or raises: a result exactly for a list argument, and then one without repeated keys and with the input's key set. |
| `ListOps.DeduplicatedSimple` | list_ops.py:63-79 | What `remove_duplicates_simple` returns or raises: a result exactly for a list of hashable elements, and then one without repeated elements and with the input's element set. |
| `ListOps.Dedup` | list_ops.py:35-53 | The output is never longer than the input; empty gives empty. |
| `ListOps.FirstUnhashable` | list_ops.py:74-77 | Finds the first element that `set` membership cannot hash; when there is none, every element is hashable. |
| `ListOps.DedupNoRepeatedKeys` | list_ops.py:51-53 | No two output elements share a key. |
| `ListOps.DedupKeys` | list_ops.py:42-53 | Every output element comes from the input, and the output's key set equals the input's key set. |
| `ListOps.DedupIsFirstOccurrences` | list_ops.py:42-53 | The output is exactly the subsequence of first occurrences (positions with no earlier equal key), in input order. |
| `ListOps.DedupDistinctUnchanged` | list_ops.py:42-53 | An input with no repeated keys is returned unchanged. |
| `ListOps.DedupIdempotent` | list_ops.py:42-53 | Deduplicating twice equals deduplicating once. |
| `ListOps.DedupSameEquivalence` | list_ops.py:44-51 | Two key functions that induce the same equality on the input elements give the same output. |
| `ListOps.SimpleAgreesWithKeyed` | list_ops.py:58-79 | On input without list or dict elements, `remove_duplicates_simple` and `remove_duplicates` give the same result. |
| `ListOps.ListKeyIsItsTuple` | list_ops.py:44-47 | Two list elements share a key iff they hold the same items, and a list shares its key with the tuple of those items. |
| `ListOps.PreserveOrderExample` | test_list_ops.py:73-78 | `[3,1,2,1,3,2]` gives `[3,1,2]`. |
| `ListOps.NestedListExample` | test_list_ops.py:80-85 | `[[1,2],[3,4],[1,2],[5,6]]` gives `[[1,2],[3,4],[5,6]]`. |
| `ListOps.DictionaryExample` | test_list_ops.py:87-92 | `[{"a":1},{"b":2},{"a":1},{"c":3}]` gives `[{"a":1},{"b":2},{"c":3}]`. |
| `UserManagement.FirstIndex` | user_manager.py:123-126 | Returns the position of the first record with the id, or None exactly when no record has it. |
| `UserManagement.Loaded` | user_manager.py:48-58 | The list loading starts from: the file's records, or the empty list when the file is missing or malformed. |
| `UserManagement.EmailTaken` | user_manager.py:96-98 | Some record has exactly the given email, compared with case. |
| `UserManagement.AddRejected` | user_manager.py:89-98 | The guards of `add_user`: an empty name, an empty email, a negative age, or an email already taken. |
| `UserManagement.Added` | user_manager.py:89-109 | The list after `add_user`: the old list is kept as a prefix, and at most one record is appended. |
| `UserManagement.UserWithId` | user_manager.py:123-126 | A found record is in the store and has the id; None is returned exactly when no record has the id. |
| `UserManagement.StatusUpdated` | user_manager.py:159-161 | The list after `update_user_status`: same length, and every record keeps its id and email. |
| `UserManagement.Deleted` | user_manager.py:176-178 | The list after `delete_user`: one record shorter exactly when the id is found, and holding only records of the old list. |
| `UserManagement.NameSearch` | user_manager.py:202-211 | What `search_users_by_name` returns: never longer than the store, and only records of the store. |
| `UserManagement.AgeFilter` | user_manager.py:142-146 | A record is in the result iff it is in the store and `min <= age <= max`. The result is never longer than the store. |
| `UserManagement.InAgeRange` | user_manager.py:144 | The age test `min_age <= age <= max_age`, both ends included. |
| `UserManagement.NameFilter` | user_manager.py:205-211 | A record is in the result iff it is in the store and its lower-cased name contains the needle. |
| `UserManagement.NameMatches` | user_manager.py:209 | The lower-cased name contains the needle. |
| `UserManagement.Contains` | user_manager.py:209 | Python's `in` on strings: `part` is a prefix of `text` or occurs in its tail. |
| `UserManagement.ContainsIsSubstring` | user_manager.py:209 | `Contains` holds exactly when `part` occurs as a contiguous block at some position of `text`. |
| `UserManagement.Lower` | user_manager.py:206-209 | `.lower()` on the term and on each name: every character lower-cased, ASCII only. |
| `UserManagement.LowerChar` | user_manager.py:206-209 | One character of `.lower()`: `A`..`Z` become `a`..`z`, anything else is kept. |
| `UserManagement.CountActive` | user_manager.py:190 | The number of active records never exceeds the number of records. |
| `UserManagement.UserManager.constructor` | user_manager.py:30-58 | Starts from the file's records, or from the empty list when the file is missing or malformed. |
| `UserManagement.UserManager.LoadUsers` | user_manager.py:42-58 | Replaces the list by the file's records, or by the empty list. |
| `UserManagement.UserManager.SaveUsers` | user_manager.py:60-72 | A successful write makes `persisted` the current list. A failed write (IOError) leaves `persisted` as it was. |
| `UserManagement.UserManager.AddUser` | user_manager.py:74-111 | Returns false with the list unchanged on an empty name, an empty email, a negative age or an existing equal email. Otherwise it appends the record `len + 1` and saves. It returns true, or IOError after the append when the save fails. Email uniqueness is kept. |
| `UserManagement.UserManager.IndexOfUser` | user_manager.py:123-126 | The linear scan finds the first position with the id, or none. |
| `UserManagement.UserManager.GetUserById` | user_manager.py:113-126 | Returns the first record with the id. Returns None exactly when no record has it. |
| `UserManagement.UserManager.GetUsersByAgeRange` | user_manager.py:128-146 | Returns `[]` when min > max. Otherwise returns the records with `min <= age <= max`, in store order. |
| `UserManagement.UserManager.UpdateUserStatus` | user_manager.py:148-164 | A found id sets `active` of the first matching record and saves, replying true or IOError. A missing id replies false and changes nothing. Email uniqueness is kept. |
| `UserManagement.UserManager.DeleteUser` | user_manager.py:166-181 | A found id removes the first matching record and saves, replying true or IOError. A missing id replies false and changes nothing. Email uniqueness is kept. |
| `UserManagement.UserManager.ActiveUsersCount` | user_manager.py:183-190 | The active count never exceeds the user count. |
| `UserManagement.UserManager.SearchUsersByName` | user_manager.py:192-211 | An empty term gives `[]`. Otherwise gives the records whose lower-cased name contains the lower-cased term, in store order: a record is found iff it is in the store and its lower-cased name contains the lower-cased term. |
| `UserManagement.UserManager.ExportUsersToCsv` | user_manager.py:213-237 | Returns true exactly when the store is non-empty and the target can be written. |
| `UserManagement.UserManager.GetAllUsers` | user_manager.py:239-246 | Returns the whole list, in order. |
| `UserManagement.UserManager.UserCount` | user_manager.py:248-255 | Equals the number of records. |
| `UserManagement.UserManager.ClearAllUsers` | user_manager.py:257-264 | Leaves the list empty, then saves. A failed save is reported as an IOError. |
| `UserManagement.AddedAppendsOne` | user_manager.py:100-111 | An accepted add keeps the old records as a prefix. It appends one record with id `old length + 1`, the given name, email and age, and `active` true. |
| `UserManagement.AddRejectedCases` | user_manager.py:89-98 | An add is rejected iff the name or email is empty, the age is negative, or some record has exactly that email. A rejected add leaves the list unchanged. |
| `UserManagement.AddedKeepsEmailsUnique` | user_manager.py:95-109 | Adding keeps every email distinct. |
| `UserManagement.StatusUpdatedKeepsEmailsUnique` | user_manager.py:159-162 | A status update keeps every email distinct. |
| `UserManagement.DeletedKeepsEmailsUnique` | user_manager.py:176-179 | Deleting keeps every email distinct. |
| `UserManagement.UserWithIdIsFirstMatch` | user_manager.py:123-126 | The lookup yields None iff no record has the id. Otherwise it yields a record with the id, and no earlier record has that id. |
| `UserManagement.StatusUpdatedFrame` | user_manager.py:159-164 | A status update keeps the length and every field except `active` of the first matching record. All other records stay unchanged. |
| `UserManagement.DeletedFrame` | user_manager.py:176-181 | Deleting removes exactly the first matching record. The records before it stay, the ones after it move up one place and no id is renumbered. A missing id changes nothing. |
| `UserManagement.CountActiveAfterSet` | user_manager.py:161 | Setting one record's status changes the active count by the difference between its old and new status. |
| `UserManagement.CountActiveAfterUpdate` | test_user_manager.py:212-223 | After an update of an existing id, the active count is the old count adjusted by that record's status change. |
| `UserManagement.NameSearchIgnoresTermCase` | user_manager.py:206-209 | The ASCII case of the search term does not change the search result. |
| `UserManagement.AddAllKeepsIdsSequential` | user_manager.py:101 | Any series of adds, accepted or rejected, keeps the ids numbered 1..n. |
| `UserManagement.AddAllAppends` | user_manager.py:100-109 | Requests each accepted in turn (`AcceptedInTurn`) append one record apiece, numbered on from the store's length. |
| `UserManagement.AddsFromEmpty` | test_user_manager.py:304-312 | After n accepted adds from an empty store, record i is `(i + 1, name_i, email_i, age_i, created_i, active)`. |
| `UserManagement.IdReusedAfterDelete` | user_manager.py:101 | Add ids 1, 2, 3, delete id 1, add again: the new record's id 3 equals an existing one. |
| `UserManagement.EmailCheckIsCaseSensitive` | user_manager.py:96-98 | After "test@example.com" is stored, "TEST@EXAMPLE.COM" is accepted. |

## Left out

- File I/O: the modelled methods keep no JSON text, no UTF-8 encoding and no indentation for `load_users` and `save_users`. The file is reduced to the `StoredFile` parameter, the `writable` flag and the ghost `persisted` list.
- A file holding valid JSON that is not a list of user records: `load_users` accepts any JSON value without validation, but the model only loads lists of records. Loaded records are not checked either, so email uniqueness is proved as "kept if it held" rather than as an invariant of every store.
- The data file path in `__init__`: it only selects the file, which is not modelled.
- CSV export: the model keeps the empty-store guard and the failure to write. It leaves out the CSV text and the header taken from the first record's keys.
- `datetime.now().isoformat()`: the clock is outside the model, so the timestamp is the `created` parameter.
- `.lower()`: the model lower-cases ASCII only, with no Unicode case mapping.
- Python's dynamic typing: non-int or bool ages in `add_user`, float elements, and cross-type equality such as `1 == True`. The static types exclude these.
- The `ValueError` named in `add_user`'s docstring: the code never raises it, so the model has none either.
- Nested containers inside list or dict elements: Python raises TypeError (unhashable) when hashing `tuple(item)` for these. The element type here only admits hashable contents inside a list or dict, and dict keys are strings only, so the sorting of mixed-type keys cannot fail.
- Top-level elements of other unhashable types (a bytearray, a tuple holding a list): there `item_key` is the item itself (list_ops.py:49), and both functions raise TypeError ("unhashable type: ...") at the set membership test (list_ops.py:51 and :75). The element type cannot express these inputs, so this error path is not modelled; `FirstUnhashable` flags only list and dict elements. A `set` element is not modelled either: Python's membership test retries it as a frozenset, so an equal frozenset seen earlier makes it be skipped silently, and otherwise `seen.add` (list_ops.py:52 and :76) raises TypeError.
- `ListOps.ElementKey`: a dict element gets a key kind of its own, so the model never lets a dict dedup against a list or a tuple. In Python the key of a dict is `tuple(sorted(item.items()))` (list_ops.py:47), and that tuple can equal other keys. It equals the key of a tuple element holding the same sorted pairs. It equals the key of a list element holding those pairs, since `tuple([("a", 1)]) == tuple(sorted({"a": 1}.items()))`. The empty dict has the same key as `[]` and `()`, so `remove_duplicates([[], {}])` returns `[[]]`, while the model keeps both. A list element does share its key with the equal tuple, as in Python.
- `UserManagement.UserManager.SaveUsers`: a failed save is taken to fail at `open` and leave the file untouched, so `persisted` keeps its old value. A failure part-way through the write is not modelled: there `open(..., 'w')` (user_manager.py:68) has already truncated the file, which then holds neither list. The same applies to the failed-save case of `AddUser`, `UpdateUserStatus`, `DeleteUser` and `ClearAllUsers`.
- Object identity and aliasing: the record returned by `get_user_by_id` is the live dict, `get_all_users` returns a shallow copy and `remove_duplicates` returns a new list. Dafny values cannot alias, so none of this is observable here.
- `main()`, the `__main__` demo code, print statements and the timing tests: they are demonstration and diagnostics only.
