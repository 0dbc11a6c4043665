/**
  The store of `user_api.py` as the object that owns it: the `USERS` and
  `GROUPS` dictionaries become fields updated in place, the helpers
  `get_user`, `create_user` and `delete_user` become methods with their loops,
  and each route becomes a method holding the route's existence check and its
  store mutation, reporting an `Outcome` instead of an HTTP response.
 */
module UserApi {
  import opened Lists
  import opened Directory

  class Store {
    /** `USERS`: userid to stored record. */
    var users: map<string, User>
    /** `GROUPS`: group name to its ordered member ids. */
    var groups: map<string, seq<string>>
    /** The keys of `GROUPS` in insertion order. */
    var order: seq<string>

    /** The store as a value. */
    function State(): Dir
      reads this
    {
      Dir(users, groups, order)
    }

    ghost predicate Valid()
      reads this
    {
      WellFormed(State())
    }

    /** Both dictionaries start empty. */
    constructor ()
      ensures Valid() && State() == Empty
    {
      users, groups, order := map[], map[], [];
    }

    /**
      `get_user`: `None` and no change for an unknown userid; otherwise the
      derived group list goes into the stored record, which is returned.
     */
    method GetUser(uid: string) returns (user: Option<User>)
      requires Valid()
      modifies this
      ensures Valid()
      ensures uid !in old(users) ==> user == None && State() == old(State())
      ensures uid in old(users) ==> State() == Read(old(State()), uid) && user == Some(users[uid])
    {
      if uid !in users {
        return None;
      }
      var membership := [];
      var i := 0;
      while i < |order|
        invariant 0 <= i <= |order|
        invariant Indexed(order[..i], groups)
        invariant membership == Membership(order[..i], groups, uid)
      {
        var g := order[i];
        assert order[..i + 1][..i] == order[..i];
        if uid in groups[g] {
          membership := membership + [g];
        }
        i := i + 1;
      }
      assert order[..|order|] == order;
      users := users[uid := users[uid].(groups := Some(membership))];
      assert State() == Read(old(State()), uid);
      user := Some(users[uid]);
    }

    /**
      `create_user`: stores the record and enrols `uid` in every group named
      by `gs`, creating the missing ones. It does not look at `users` first.
     */
    method CreateUser(first: string, last: string, uid: string, gs: seq<string>)
      requires Valid()
      modifies this
      ensures Valid()
      ensures State() == Created(old(State()), first, last, uid, gs)
    {
      users := users[uid := User(first, last, uid, None)];
      ghost var start := State();
      var i := 0;
      while i < |gs|
        invariant 0 <= i <= |gs|
        invariant State() == Enrol(start, uid, gs[..i])
      {
        Join(uid, gs[i]);
        assert gs[..i + 1][..i] == gs[..i];
        i := i + 1;
      }
      assert gs[..|gs|] == gs;
      CreatedIsEnrol(old(State()), first, last, uid, gs);
    }

    /** The body of `create_user`'s loop: create group `g` if it is missing, then append `uid` to it. */
    method Join(uid: string, g: string)
      modifies this
      ensures State() == Enlist(old(State()), uid, g)
    {
      if g !in groups {
        groups := groups[g := []];
        order := order + [g];
      }
      groups := groups[g := groups[g] + [uid]];
    }

    /**
      `delete_user`: drops the record and takes the first occurrence of `uid`
      out of every group list that holds it. `USERS.pop` raises on an unknown
      userid, so callers check first.
     */
    method DeleteUser(uid: string)
      requires Valid() && uid in users
      modifies this
      ensures Valid()
      ensures State() == Deleted(old(State()), uid)
    {
      ghost var before := State();
      users := users - {uid};
      var i := 0;
      while i < |order|
        invariant 0 <= i <= |order|
        invariant users == before.users - {uid} && order == before.order
        invariant Indexed(order[..i], before.groups)
        invariant groups == Purge(before.groups, order[..i], uid)
      {
        var g := order[i];
        assert order[..i + 1][..i] == order[..i];
        ghost var next := Purge(before.groups, order[..i + 1], uid);
        assert next == if uid in groups[g] then groups[g := RemoveFirst(groups[g], uid)] else groups;
        if uid in groups[g] {
          groups := groups[g := RemoveFirst(groups[g], uid)];
        }
        assert groups == next;
        i := i + 1;
      }
      assert order[..|order|] == order;
    }

    /** The route that reads a user: `NotFound` for an unknown userid, else the record `get_user` leaves. */
    method UsersGet(uid: string) returns (r: Outcome<User>)
      requires Valid()
      modifies this
      ensures Valid()
      ensures uid !in old(users) ==> r == NotFound && State() == old(State())
      ensures uid in old(users) ==> State() == Read(old(State()), uid) && r == Ok(users[uid])
    {
      var user := GetUser(uid);
      if user.None? {
        return NotFound;
      }
      r := Ok(users[uid]);
    }

    /** The route that deletes a user: `NotFound` and no change for an unknown userid, else `delete_user`. */
    method UsersDelete(uid: string) returns (r: Outcome<()>)
      requires Valid()
      modifies this
      ensures Valid()
      ensures uid !in old(users) ==> r == NotFound && State() == old(State())
      ensures uid in old(users) ==> r == Ok(()) && State() == Deleted(old(State()), uid)
    {
      var user := GetUser(uid);
      if user.None? {
        return NotFound;
      }
      ReadThenDeleted(old(State()), uid);
      DeleteUser(uid);
      r := Ok(());
    }

    /**
      The route that replaces a user: `NotFound` and no change when the path's
      userid is unknown; otherwise `delete_user` of the old id, then
      `create_user` under the new id, which may differ and is not checked
      against the existing users, then `get_user` of the new id.
     */
    method UsersPut(path: string, first: string, last: string, uid: string, gs: seq<string>) returns (r: Outcome<User>)
      requires Valid()
      modifies this
      ensures Valid()
      ensures path !in old(users) ==> r == NotFound && State() == old(State())
      ensures path in old(users) ==>
        State() == Read(Created(Deleted(old(State()), path), first, last, uid, gs), uid) && r == Ok(users[uid])
    {
      if path !in users {
        return NotFound;
      }
      DeleteUser(path);
      CreateUser(first, last, uid, gs);
      var user := GetUser(uid);
      r := Ok(users[uid]);
    }

    /**
      The route that creates a user: `AlreadyExists` before any change when the
      userid is taken; otherwise `create_user`, then `get_user` of the new id.
     */
    method UsersPost(first: string, last: string, uid: string, gs: seq<string>) returns (r: Outcome<User>)
      requires Valid()
      modifies this
      ensures Valid()
      ensures uid in old(users) ==> r == AlreadyExists && State() == old(State())
      ensures uid !in old(users) ==>
        State() == Read(Created(old(State()), first, last, uid, gs), uid) && r == Ok(users[uid])
    {
      if uid in users {
        return AlreadyExists;
      }
      CreateUser(first, last, uid, gs);
      var user := GetUser(uid);
      r := Ok(users[uid]);
    }

    /** The route that reads a group: its member list as stored, or `NotFound`. */
    method GroupsGet(name: string) returns (r: Outcome<seq<string>>)
      ensures name in groups <==> r.Ok?
      ensures name in groups ==> r.value == groups[name]
      ensures name !in groups ==> r == NotFound
    {
      if name !in groups {
        return NotFound;
      }
      r := Ok(groups[name]);
    }

    /**
      The route that creates a group: `Invalid` and no change for an empty
      name, `AlreadyExists` and no change for a taken one, else an empty group.
     */
    method GroupsPost(name: string) returns (r: Outcome<string>)
      requires Valid()
      modifies this
      ensures Valid()
      ensures name == "" ==> r == Invalid && State() == old(State())
      ensures name != "" && name in old(groups) ==> r == AlreadyExists && State() == old(State())
      ensures name != "" && name !in old(groups) ==> r == Ok(name) && State() == GroupAdded(old(State()), name)
    {
      if name == "" {
        return Invalid;
      }
      if name in groups {
        return AlreadyExists;
      }
      groups := groups[name := []];
      order := order + [name];
      r := Ok(name);
    }

    /**
      The route that replaces a group's members: `NotFound` and no change for an
      unknown group, else the list is stored verbatim and returned.
     */
    method GroupsPut(name: string, members: seq<string>) returns (r: Outcome<seq<string>>)
      requires Valid()
      modifies this
      ensures Valid()
      ensures name !in old(groups) ==> r == NotFound && State() == old(State())
      ensures name in old(groups) ==> r == Ok(members) && State() == GroupReplaced(old(State()), name, members)
    {
      if name !in groups {
        return NotFound;
      }
      groups := groups[name := members];
      r := Ok(groups[name]);
    }

    /** The route that deletes a group: `NotFound` and no change for an unknown group, else only that key goes. */
    method GroupsDelete(name: string) returns (r: Outcome<()>)
      requires Valid()
      modifies this
      ensures Valid()
      ensures name !in old(groups) ==> r == NotFound && State() == old(State())
      ensures name in old(groups) ==> r == Ok(()) && State() == GroupRemoved(old(State()), name)
    {
      if name !in groups {
        return NotFound;
      }
      ghost var before := State();
      groups := groups - {name};
      order := RemoveFirst(order, name);
      assert State() == GroupRemoved(before, name);
      r := Ok(());
    }
  }
}
