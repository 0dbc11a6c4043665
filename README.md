# user_api directory store in Dafny

This project models the in-memory directory store behind the small Flask
user/group service in `user_api.py`. The store is two process-wide
dictionaries: `USERS` maps a userid to its record, and `GROUPS` maps a group
name to its ordered list of member ids, with repetitions kept. Three helpers
change them:

- `get_user` derives a user's group list by walking `GROUPS`, and writes that
  list into the stored record.
- `create_user` stores a record and appends the id to every named group,
  creating the groups that are missing.
- `delete_user` drops the record and takes the id out of the group lists.

Each HTTP route checks whether the user or group exists and then calls these
helpers or edits `GROUPS` directly.

The model has three modules:

- `Lists` (`lists.dfy`): sequence functions for the list and dictionary behaviour the store relies on.
  - `RemoveFirst` is `list.remove` (`user_api.py:65`).
  - `NewNames` gives the keys a run of dictionary inserts appends to the insertion order (`user_api.py:50-52`).
  - `Count`, `Pos` and `Repeat` are specification helpers the source does not call. `Count` states the `in` tests (`user_api.py:38`, `63`) and what a run of `append`s adds (`user_api.py:54`). `Pos` locates the occurrence `list.remove` takes out and compares positions in the key order.
- `Directory` (`directory.dfy`): the store as a value `Dir`.
  - `Dir` holds the two dictionaries and the insertion order of the keys of `GROUPS`.
    The order is kept because every `for g in GROUPS` visits the keys in that order.
  - `Membership`, `Enrol` and `Purge` are step-by-step definitions of the three helper loops.
  - `Read`, `Created`, `Deleted`, `GroupAdded`, `GroupReplaced` and `GroupRemoved` say what each operation does to the store.
  - Lemmas give each loop's effect without the loop, and say what every operation does to the group list a user is shown.
- `UserApi` (`user_api.dfy`): class `Store`.
  - Its fields `users`, `groups` and `order` are updated in place.
  - The helpers are methods with their loops and loop invariants.
  - Each route is a method that returns an `Outcome` instead of an HTTP response.
  - Every method is proved against the matching transition function. Every method keeps the invariant `Valid()`: the order lists each group exactly once, and each record is filed under its own userid.

In four places the code does something a reader of the routes might not
expect; the model follows the code:

- `get_user` is not a pure read. It writes the derived `groups` entry into the stored record (`user_api.py:40-41`). So `User.groups` is an `Option`: a record stored by `create_user` has none (`user_api.py:48`).
- `delete_user` calls `list.remove`, which takes out only the first occurrence of the id (`user_api.py:65`). One might expect a user delete to drop every occurrence of the id from every group list, but it does not. A list can hold an id twice: `create_user` appends once per mention in its `groups` argument, and the group-replace route stores any list verbatim. `DeletedMembership` and `DuplicateSurvivesDelete` state what the code actually does.
- The group-replace route answers an unknown group with status 400, not 404 (`user_api.py:178-179`). The model reports `NotFound` for it, as for the other "not found" cases, because HTTP statuses are not modelled.
- The user-replace route does not check whether the new userid is already taken (`user_api.py:111-115`). `UsersPut` keeps that gap: the record under the new id is overwritten.

## Model

| member | source | states |
|---|---|---|
| Directory.EmptyWellFormed | user_api.py:9-12 | The empty store the module starts with satisfies the store invariant. |
| Directory.Membership | user_api.py:36-39 | The list `get_user` builds names exactly the visited groups whose list contains the id. |
| Directory.MembershipOrdered | user_api.py:36-39 | The derived list has no repetitions, and it lists groups in their insertion order into `GROUPS`. |
| Directory.Enrol | user_api.py:49-54 | The whole group loop of `create_user`, one name at a time as `Enlist`: it never touches the users, never drops a group, and only extends the key order at its end. |
| Directory.Enlist | user_api.py:50-54 | One pass of that loop for name `g`: `g` becomes a group whose list is its old one, or `[]` if it was new, with the id appended. A new `g` goes last in the key order. No other group and no user changes. |
| Directory.Purge | user_api.py:62-65 | The group loop of `delete_user` over a run of keys: every visited list holding the id loses its first occurrence of it. The set of keys is unchanged, and so are the lists of groups it does not visit. |
| Directory.MembershipFrame | user_api.py:37-38 | The derived list depends only on the lists of the groups visited. |
| Directory.EnrolKeys | user_api.py:49-52 | `create_user`'s loop leaves the users alone. Afterwards the group keys are the old keys plus every name in `groups`. |
| Directory.EnrolShape | user_api.py:49-54 | After the loop, every group's list is its old list, or `[]` for a new group, followed by the id once per mention of that group. |
| Directory.EnrolOrder | user_api.py:50-52 | Newly created groups join the end of the key order, in the order of their first mention, each once. |
| Directory.PurgeShape | user_api.py:62-65 | `delete_user`'s loop, visiting each key once, removes the first occurrence of the id from every list that holds it. Lists of groups it does not visit are unchanged. |
| Directory.Read | user_api.py:33-43 | `get_user` changes only the record of that id. The names are kept, and `groups` becomes exactly the groups whose list contains the id. |
| Directory.Created | user_api.py:46-56 | `create_user` stores the record without `groups` and creates exactly the missing named groups, appended to the key order. Each list gains the id once per mention, and nothing else changes. The invariant is kept. |
| Directory.Deleted | user_api.py:59-67 | `delete_user` drops only that record. Every list loses its first occurrence of the id, and no group or key position changes. The invariant is kept. |
| Directory.GroupAdded | user_api.py:164-168 | A new group is added with an empty list at the end of the key order. Users and the other groups are unchanged. |
| Directory.GroupReplaced | user_api.py:178-182 | The group's list becomes the given list verbatim. Users, keys, order and the other groups are unchanged. |
| Directory.GroupRemoved | user_api.py:189-192 | Only the key of that group goes: it leaves the key order, where the other keys keep their order. No user record and no other group changes. |
| Directory.CreatedMembership | user_api.py:46-54 | After `create_user`, a user belongs to a group exactly when they belonged before, or they are the new id and the group was named. |
| Directory.DeletedMembership | user_api.py:59-65 | After `delete_user(uid)`, a user belongs to a group exactly when its list held them. The deleted id must be held at least twice, because only one copy is removed. |
| Directory.DuplicateSurvivesDelete | user_api.py:63-65 | An id listed twice in a group is still derived as a member of it after `delete_user` of that id. |
| Directory.GroupAddedMembership | user_api.py:168 | Creating a group changes nobody's derived group list. |
| Directory.GroupReplacedMembership | user_api.py:182 | After a replace, a user belongs to the replaced group exactly when the new list names them. Their other groups are unchanged. |
| Directory.GroupRemovedMembership | user_api.py:192 | After a group delete, every user's derived group list is the old list with that group taken out; the remaining groups keep their order. |
| Directory.MembershipRemove | user_api.py:37-39 | Taking one key out of the key order takes that group, and only it, out of the list the `get_user` loop builds, provided the other groups keep their lists. |
| Directory.PostedGroups | user_api.py:133-135 | A user created by the create route is returned with exactly the named groups plus every group whose list already named that userid. |
| Directory.ReadIdempotent | user_api.py:33-43 | A second `get_user` with no change in between leaves the store as the first one did. |
| Directory.ReadThenDeleted | user_api.py:95-98 | The record write done by the delete route's `get_user` makes no difference once `delete_user` runs. |
| Lists.RemoveFirst | user_api.py:65 | `list.remove` removes one element: the id's count drops by one, no other count changes, and the length drops by one. |
| Lists.RemoveFirstDistinct | user_api.py:192 | Removing a key from a list of distinct keys leaves distinct keys, exactly the others. |
| Lists.NewNames | user_api.py:50-52 | The names a run of inserts adds to the dictionary order have no repetitions. They are exactly the names not present before. |
| Lists.NewNamesSnoc | user_api.py:50-52 | One more insert extends the added names by that name exactly when it is new. |
| Lists.Count | user_api.py:63 | The number of occurrences, used in contracts: it is positive exactly when the `in` test of `user_api.py:63` succeeds. |
| Lists.Repeat | user_api.py:54 | Repeated appends of one id add that many elements. |
| Lists.RepeatHolds | user_api.py:54 | Those appends add the id and nothing else, and add it only when there is at least one. |
| UserApi.Store.constructor | user_api.py:9-12 | The store starts with both dictionaries empty. |
| UserApi.Store.GetUser | user_api.py:33-43 | An unknown id gives `None` and no change. Otherwise the loop's result is written into the record (the new state is `Read`) and that record is returned. |
| UserApi.Store.CreateUser | user_api.py:46-56 | Under its loop invariant, the new state is `Created` of the old one. |
| UserApi.Store.Join | user_api.py:50-54 | One pass of `create_user`'s loop in place: the new state is `Enlist` of the old one. |
| UserApi.Store.DeleteUser | user_api.py:59-67 | For an existing id, the new state is `Deleted` of the old one. |
| UserApi.Store.UsersGet | user_api.py:84-90 | `NotFound` and no change for an unknown id. Otherwise the stored record after `get_user`. |
| UserApi.Store.UsersDelete | user_api.py:93-99 | `NotFound` and no change for an unknown id. Otherwise the state is `Deleted` of the old one. |
| UserApi.Store.UsersPut | user_api.py:104-118 | `NotFound` and no change for an unknown path id. Otherwise delete, then create under the possibly different new id, then read; the new id's record is returned. |
| UserApi.Store.UsersPost | user_api.py:123-137 | `AlreadyExists` and no change for a taken id. Otherwise create, then read; the new record is returned. |
| UserApi.Store.GroupsGet | user_api.py:141-152 | `Ok` exactly when the group exists, carrying its stored list. Otherwise `NotFound`. |
| UserApi.Store.GroupsPost | user_api.py:156-170 | `Invalid` for an empty name and `AlreadyExists` for a taken one, both with no change. Otherwise the new state is `GroupAdded` and the name is returned. |
| UserApi.Store.GroupsPut | user_api.py:174-184 | `NotFound` and no change for an unknown group. Otherwise the new state is `GroupReplaced` and the stored list is returned. |
| UserApi.Store.GroupsDelete | user_api.py:188-193 | `NotFound` and no change for an unknown group. Otherwise the new state is `GroupRemoved`. |

## Left out

- HTTP, Flask, JSON parsing and encoding (`jsonify`, `broke_jsonify`, `user_api.py:70-75`), status codes and message texts: the routes return an `Outcome`, and their arguments are the already-decoded path and body fields.
- `validate_user_form` (`user_api.py:17-29`): it rejects a missing or empty body, a missing field, or a non-list `groups` before the user routes run. The model's user routes take typed, present fields.
- The body checks of the group routes. The model keeps only the empty-name rejection (`user_api.py:160-161`) for string names. A missing body or key, a body that is not a list (`user_api.py:158-159`, `176-177`), other falsy names, and JSON values in a replaced list that are not strings are left out, because all inputs are typed.
- Logging (`app.logger.debug`), the `index` route and `app.run`: they have no effect on the store.
- Concurrency: Flask may serve requests on several threads over the shared dictionaries. The model runs one operation at a time.
- Lists.RemoveFirst: returns the list unchanged when the element is absent, where Python's `list.remove` raises. The store only calls it after an `in` test.
- UserApi.Store.DeleteUser: requires the id to be present, where `USERS.pop` raises. Every caller checks first.
