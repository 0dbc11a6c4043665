/**
  The directory store of `user_api.py` as a value: the `USERS` and `GROUPS`
  dictionaries, the effect of each store operation on them, and what those
  effects mean for the group list a user is shown.
 */
module Directory {
  import opened Lists

  datatype Option<T> = None | Some(value: T)

  /**
    What a route reports; the HTTP status and message text are left out.
    `Invalid` is a request the route turns away before looking at the store.
   */
  datatype Outcome<T> = Ok(value: T) | NotFound | AlreadyExists | Invalid

  /**
    A stored user record. `create_user` stores it without a `groups` entry;
    `get_user` later writes the derived group list into it.
   */
  datatype User = User(firstName: string, lastName: string, userid: string, groups: Option<seq<string>>)

  /**
    The two process-wide dictionaries. `users` is `USERS`, `groups` is `GROUPS`
    (group name to its ordered member ids, repetitions kept), and `order` holds
    the keys of `GROUPS` in the dictionary's insertion order, which is the order
    in which every `for g in GROUPS` loop visits them.
   */
  datatype Dir = Dir(users: map<string, User>, groups: map<string, seq<string>>, order: seq<string>)

  /** The empty store the module starts with. */
  const Empty: Dir := Dir(map[], map[], [])

  /** Every name in `order` is a group. */
  predicate Indexed(order: seq<string>, groups: map<string, seq<string>>) {
    forall g :: g in order ==> g in groups
  }

  /**
    The invariant every operation keeps: `order` lists each group exactly once,
    and each user is filed under its own userid.
   */
  predicate WellFormed(d: Dir) {
    && Distinct(d.order)
    && (forall g :: g in d.groups ==> g in d.order)
    && Indexed(d.order, d.groups)
    && (forall u :: u in d.users ==> d.users[u].userid == u)
  }

  lemma EmptyWellFormed()
    ensures WellFormed(Empty)
  {
  }

  // ---------------------------------------------------------------------------
  // The loops of the store's helpers, one element at a time
  // ---------------------------------------------------------------------------

  /**
    The names in `order` whose member list mentions `uid`, in the order they
    are visited: the `membership` list `get_user` builds.
   */
  function Membership(order: seq<string>, groups: map<string, seq<string>>, uid: string): (r: seq<string>)
    requires Indexed(order, groups)
    ensures forall g :: g in r <==> g in order && uid in groups[g]
    decreases |order|
  {
    if order == [] then []
    else
      var g := order[|order| - 1];
      assert order == order[..|order| - 1] + [g];
      Membership(order[..|order| - 1], groups, uid) + (if uid in groups[g] then [g] else [])
  }

  /** The group list `get_user` derives for `uid` in store `d`. */
  function Derived(d: Dir, uid: string): seq<string>
    requires Indexed(d.order, d.groups)
  {
    Membership(d.order, d.groups, uid)
  }

  /**
    The group loop of `create_user`: for each name in `gs`, create the group
    with an empty list (appending its name to the key order) if it is not a
    key, then append `uid` to its list.
   */
  function Enrol(d: Dir, uid: string, gs: seq<string>): (r: Dir)
    ensures r.users == d.users
    ensures d.groups.Keys <= r.groups.Keys
    ensures d.order <= r.order
    decreases |gs|
  {
    if gs == [] then d
    else Enlist(Enrol(d, uid, gs[..|gs| - 1]), uid, gs[|gs| - 1])
  }

  /**
    One pass of that loop, for the name `g`: afterwards `g` is a group whose
    list is its old one, or `[]`, with `uid` appended; a new `g` goes last in
    the key order; no other group and no user changes.
   */
  function Enlist(e: Dir, uid: string, g: string): (r: Dir)
    ensures r.users == e.users
    ensures r.groups.Keys == e.groups.Keys + {g}
    ensures r.groups[g] == Base(e.groups, g) + [uid]
    ensures forall h :: h in e.groups && h != g ==> r.groups[h] == e.groups[h]
    ensures r.order == if g in e.groups then e.order else e.order + [g]
  {
    var f := if g in e.groups then e else e.(groups := e.groups[g := []], order := e.order + [g]);
    f.(groups := f.groups[g := f.groups[g] + [uid]])
  }

  /**
    The group loop of `delete_user` over the keys `keys`: every list that
    mentions `uid` loses its first occurrence of it.
   */
  function Purge(groups: map<string, seq<string>>, keys: seq<string>, uid: string): (r: map<string, seq<string>>)
    requires Indexed(keys, groups)
    ensures r.Keys == groups.Keys
    ensures forall g :: g in groups && g !in keys ==> r[g] == groups[g]
    decreases |keys|
  {
    if keys == [] then groups
    else
      var p := Purge(groups, keys[..|keys| - 1], uid);
      var g := keys[|keys| - 1];
      if uid in p[g] then p[g := RemoveFirst(p[g], uid)] else p
  }

  /** The list a group had before, or the empty list a missing group is created with. */
  function Base(groups: map<string, seq<string>>, g: string): seq<string> {
    if g in groups then groups[g] else []
  }

  /**
    What `create_user`'s loop does, stated without the loop: the keys grow by
    the names in `gs`, new names join the key order at its end in the order of
    their first mention, each list gets `uid` appended once per mention of its
    name, and the users are not touched.
   */
  lemma {:induction false} EnrolShape(d: Dir, uid: string, gs: seq<string>)
    ensures forall g :: g in Enrol(d, uid, gs).groups ==>
      Enrol(d, uid, gs).groups[g] == Base(d.groups, g) + Repeat(uid, Count(gs, g))
    decreases |gs|
  {
    if gs != [] {
      var a, x := gs[..|gs| - 1], gs[|gs| - 1];
      assert gs == a + [x];
      EnrolKeys(d, uid, a);
      EnrolShape(d, uid, a);
      EnrolSnoc(d, uid, a, x);
      var e, r := Enrol(d, uid, a), Enrol(d, uid, gs);
      forall g | g in r.groups
        ensures r.groups[g] == Base(d.groups, g) + Repeat(uid, Count(gs, g))
      {
        EnrolEntry(d.groups, e.groups, uid, a, x, g);
      }
    }
  }

  /** `create_user`'s loop leaves the users alone and makes exactly the names in `gs` new groups. */
  lemma {:induction false} EnrolKeys(d: Dir, uid: string, gs: seq<string>)
    ensures Enrol(d, uid, gs).users == d.users
    ensures forall g :: g in Enrol(d, uid, gs).groups <==> g in d.groups || g in gs
    decreases |gs|
  {
    if gs != [] {
      var a, x := gs[..|gs| - 1], gs[|gs| - 1];
      assert gs == a + [x];
      EnrolKeys(d, uid, a);
      EnrolSnoc(d, uid, a, x);
    }
  }

  /** The groups `create_user`'s loop creates join the key order at its end, in the order of their first mention. */
  lemma {:induction false} EnrolOrder(d: Dir, uid: string, gs: seq<string>)
    ensures Enrol(d, uid, gs).order == d.order + NewNames(gs, d.groups.Keys)
    decreases |gs|
  {
    if gs != [] {
      var a, x := gs[..|gs| - 1], gs[|gs| - 1];
      assert gs == a + [x];
      var e := Enrol(d, uid, a);
      assert Enrol(d, uid, gs) == Enlist(e, uid, x);
      EnrolKeys(d, uid, a);
      EnrolOrder(d, uid, a);
      NewNamesSnoc(a, x, d.groups.Keys);
      OrderStep(e.order, d.order, NewNames(a, d.groups.Keys), x, x in e.groups);
    }
  }

  /** The key order after one pass, once the order before it is known to be `old + added`. */
  lemma OrderStep(order: seq<string>, old0: seq<string>, added: seq<string>, x: string, known: bool)
    requires order == old0 + added
    ensures (if known then order else order + [x]) == old0 + (added + if known then [] else [x])
  {
  }

  /** One name more for `create_user`'s loop: its group is created if missing, then gets `uid` appended. */
  lemma EnrolSnoc(d: Dir, uid: string, a: seq<string>, x: string)
    ensures var e, r := Enrol(d, uid, a), Enrol(d, uid, a + [x]);
      && r.users == e.users
      && r.groups == e.groups[x := Base(e.groups, x) + [uid]]
      && r.order == if x in e.groups then e.order else e.order + [x]
  {
    assert (a + [x])[..|a + [x]| - 1] == a;
  }

  /** One step of `EnrolShape`: the entry of one group after one more name is handled. */
  lemma EnrolEntry(groups: map<string, seq<string>>, e: map<string, seq<string>>, uid: string, a: seq<string>, x: string, g: string)
    requires x in e <==> x in groups || x in a
    requires x in e ==> e[x] == Base(groups, x) + Repeat(uid, Count(a, x))
    requires g in e && g != x ==> e[g] == Base(groups, g) + Repeat(uid, Count(a, g))
    requires g in e || g == x
    ensures e[x := Base(e, x) + [uid]][g] == Base(groups, g) + Repeat(uid, Count(a + [x], g))
  {
    CountSnoc(a, x, g);
    if g == x {
      EnrolEntryHit(groups, e, uid, a, x);
    }
  }

  /** The entry of the name just handled gains one more `uid`, starting from `[]` when the group is new. */
  lemma EnrolEntryHit(groups: map<string, seq<string>>, e: map<string, seq<string>>, uid: string, a: seq<string>, x: string)
    requires x in e <==> x in groups || x in a
    requires x in e ==> e[x] == Base(groups, x) + Repeat(uid, Count(a, x))
    ensures Base(e, x) + [uid] == Base(groups, x) + Repeat(uid, Count(a, x) + 1)
  {
    var n := Count(a, x);
    if x !in e {
      assert x !in groups && x !in a;
    }
    assert Base(e, x) == Base(groups, x) + Repeat(uid, n);
    assert Repeat(uid, n) + [uid] == Repeat(uid, n + 1);
  }

  /**
    What `delete_user`'s loop does, stated without the loop: when `keys` lists
    each name at most once, every group it names loses the first occurrence of
    `uid` and every other group is left as it was.
   */
  lemma {:induction false} PurgeShape(groups: map<string, seq<string>>, keys: seq<string>, uid: string)
    requires Indexed(keys, groups) && Distinct(keys)
    ensures forall g :: g in groups ==>
      Purge(groups, keys, uid)[g] == if g in keys then RemoveFirst(groups[g], uid) else groups[g]
    decreases |keys|
  {
    if keys != [] {
      var a, x := keys[..|keys| - 1], keys[|keys| - 1];
      assert keys == a + [x];
      DistinctInit(keys);
      PurgeShape(groups, a, uid);
    }
  }

  // ---------------------------------------------------------------------------
  // The store's operations as transitions of the store value
  // ---------------------------------------------------------------------------

  /**
    The store after `get_user(uid)` on an existing user: the only change is that
    the stored record of `uid` gets the derived group list as its `groups` entry.
   */
  function Read(d: Dir, uid: string): (r: Dir)
    requires WellFormed(d) && uid in d.users
    ensures WellFormed(r)
    ensures r.groups == d.groups && r.order == d.order
    ensures r.users.Keys == d.users.Keys
    ensures forall u :: u in d.users && u != uid ==> r.users[u] == d.users[u]
    ensures r.users[uid].firstName == d.users[uid].firstName && r.users[uid].lastName == d.users[uid].lastName
    ensures r.users[uid].groups.Some?
    ensures forall g :: g in r.users[uid].groups.value <==> g in d.groups && uid in d.groups[g]
  {
    d.(users := d.users[uid := d.users[uid].(groups := Some(Derived(d, uid)))])
  }

  /**
    The store after `create_user(first, last, uid, gs)`. It stores the record
    exactly as given (no `groups` entry), makes every name in `gs` a group,
    appends `uid` to each list once per mention of its name, and leaves the
    other groups and users alone; no userid is checked here.
   */
  function Created(d: Dir, first: string, last: string, uid: string, gs: seq<string>): (r: Dir)
    ensures r.users == d.users[uid := User(first, last, uid, None)]
    ensures forall g :: g in r.groups <==> g in d.groups || g in gs
    ensures forall g :: g in r.groups ==> r.groups[g] == Base(d.groups, g) + Repeat(uid, Count(gs, g))
    ensures r.order == d.order + NewNames(gs, d.groups.Keys)
    ensures WellFormed(d) ==> WellFormed(r)
  {
    var start := d.(users := d.users[uid := User(first, last, uid, None)]);
    EnrolKeys(start, uid, gs);
    EnrolShape(start, uid, gs);
    EnrolOrder(start, uid, gs);
    var r := Enrol(start, uid, gs);
    if WellFormed(d) then
      DistinctAppend(d.order, NewNames(gs, d.groups.Keys));
      r
    else r
  }

  /** `Created` is the record store followed by `create_user`'s group loop. */
  lemma CreatedIsEnrol(d: Dir, first: string, last: string, uid: string, gs: seq<string>)
    ensures Created(d, first, last, uid, gs) == Enrol(d.(users := d.users[uid := User(first, last, uid, None)]), uid, gs)
  {
  }

  /**
    The store after `delete_user(uid)`: the record is gone, every list loses its
    first occurrence of `uid`, no group is removed and the key order is kept.
   */
  function Deleted(d: Dir, uid: string): (r: Dir)
    requires WellFormed(d) && uid in d.users
    ensures WellFormed(r)
    ensures r.users == d.users - {uid}
    ensures r.groups.Keys == d.groups.Keys && r.order == d.order
    ensures forall g :: g in r.groups ==> r.groups[g] == RemoveFirst(d.groups[g], uid)
  {
    PurgeShape(d.groups, d.order, uid);
    Dir(d.users - {uid}, Purge(d.groups, d.order, uid), d.order)
  }

  /** The store after the group-create route adds a new, empty group: it goes last in the key order. */
  function GroupAdded(d: Dir, name: string): (r: Dir)
    requires WellFormed(d) && name !in d.groups
    ensures WellFormed(r)
    ensures r.users == d.users
    ensures r.groups.Keys == d.groups.Keys + {name} && r.groups[name] == []
    ensures forall g :: g in d.groups ==> r.groups[g] == d.groups[g]
  {
    DistinctAppend(d.order, [name]);
    Dir(d.users, d.groups[name := []], d.order + [name])
  }

  /** The store after the group-replace route overwrites the member list of an existing group verbatim. */
  function GroupReplaced(d: Dir, name: string, members: seq<string>): (r: Dir)
    requires WellFormed(d) && name in d.groups
    ensures WellFormed(r)
    ensures r.users == d.users && r.order == d.order
    ensures r.groups.Keys == d.groups.Keys && r.groups[name] == members
    ensures forall g :: g in d.groups && g != name ==> r.groups[g] == d.groups[g]
  {
    d.(groups := d.groups[name := members])
  }

  /** The store after the group-delete route removes one group: no user record is touched. */
  function GroupRemoved(d: Dir, name: string): (r: Dir)
    requires WellFormed(d) && name in d.groups
    ensures WellFormed(r)
    ensures r.users == d.users
    ensures r.groups.Keys == d.groups.Keys - {name}
    ensures forall g :: g in r.groups ==> r.groups[g] == d.groups[g]
    ensures r.order == RemoveFirst(d.order, name)
  {
    RemoveFirstDistinct(d.order, name);
    Dir(d.users, d.groups - {name}, RemoveFirst(d.order, name))
  }

  // ---------------------------------------------------------------------------
  // What the operations mean for the derived group lists
  // ---------------------------------------------------------------------------

  /**
    The derived list names each group at most once and keeps the order in which
    the groups were inserted.
   */
  lemma {:induction false} MembershipOrdered(order: seq<string>, groups: map<string, seq<string>>, uid: string)
    requires Indexed(order, groups) && Distinct(order)
    ensures Distinct(Membership(order, groups, uid))
    ensures forall i, j :: 0 <= i < j < |Membership(order, groups, uid)| ==>
      Pos(order, Membership(order, groups, uid)[i]) < Pos(order, Membership(order, groups, uid)[j])
    decreases |order|
  {
    var r := Membership(order, groups, uid);
    if order != [] {
      var a, g := order[..|order| - 1], order[|order| - 1];
      assert order == a + [g];
      DistinctInit(order);
      MembershipOrdered(a, groups, uid);
      var ra := Membership(a, groups, uid);
      assert r == ra + (if uid in groups[g] then [g] else []);
      forall i, j | 0 <= i < j < |r| ensures Pos(order, r[i]) < Pos(order, r[j]) {
        MembershipOrderedStep(a, g, ra, r, i, j);
      }
    }
  }

  /** One pair of positions in the induction step of `MembershipOrdered`. */
  lemma MembershipOrderedStep(a: seq<string>, g: string, ra: seq<string>, r: seq<string>, i: int, j: int)
    requires g !in a && (forall y :: y in ra ==> y in a)
    requires forall i', j' :: 0 <= i' < j' < |ra| ==> Pos(a, ra[i']) < Pos(a, ra[j'])
    requires r == ra || r == ra + [g]
    requires 0 <= i < j < |r|
    ensures r[i] in a + [g] && r[j] in a + [g] && Pos(a + [g], r[i]) < Pos(a + [g], r[j])
  {
    assert r[i] == ra[i] && ra[i] in ra;
    PosAppend(a, [g], r[i]);
    if j < |ra| {
      assert r[j] == ra[j] && ra[j] in ra;
      PosAppend(a, [g], r[j]);
    } else {
      assert r[j] == g;
      assert (a + [g])[|a|] == g && g !in (a + [g])[..|a|];
    }
  }

  /**
    After `create_user(first, last, uid, gs)`, user `v` is derived to belong to
    group `g` exactly when `g` is named in `gs` and `v` is the new user, or `v`
    belonged to `g` before.
   */
  lemma CreatedMembership(d: Dir, first: string, last: string, uid: string, gs: seq<string>, v: string)
    requires WellFormed(d)
    ensures forall g :: g in Derived(Created(d, first, last, uid, gs), v) <==>
      (v == uid && g in gs) || g in Derived(d, v)
  {
    forall g ensures g in Derived(Created(d, first, last, uid, gs), v) <==> (v == uid && g in gs) || g in Derived(d, v) {
      CreatedEntry(d, first, last, uid, gs, v, g);
    }
  }

  /** `CreatedMembership` for one group. */
  lemma CreatedEntry(d: Dir, first: string, last: string, uid: string, gs: seq<string>, v: string, g: string)
    requires WellFormed(d)
    ensures g in Created(d, first, last, uid, gs).groups ==>
      (v in Created(d, first, last, uid, gs).groups[g] <==> (v == uid && g in gs) || (g in d.groups && v in d.groups[g]))
  {
    var c := Created(d, first, last, uid, gs);
    if g in c.groups {
      var n := Count(gs, g);
      assert c.groups[g] == Base(d.groups, g) + Repeat(uid, n);
      assert g in gs <==> n > 0;
      RepeatHolds(uid, n, v);
    }
  }

  /**
    After `delete_user(uid)`, user `v` is derived to belong to group `g` exactly
    when `g`'s list held `v` before, and held it at least twice if `v` is the
    deleted user: `list.remove` takes out only one occurrence.
   */
  lemma DeletedMembership(d: Dir, uid: string, v: string)
    requires WellFormed(d) && uid in d.users
    ensures forall g :: g in Derived(Deleted(d, uid), v) <==>
      g in d.groups && Count(d.groups[g], v) >= (if v == uid then 2 else 1)
  {
    var e := Deleted(d, uid);
    forall g | g in e.groups
      ensures v in e.groups[g] <==> Count(d.groups[g], v) >= (if v == uid then 2 else 1)
    {
    }
  }

  /** An id listed twice in a group stays a member of it after `delete_user` of that id. */
  lemma DuplicateSurvivesDelete(d: Dir, uid: string, g: string)
    requires WellFormed(d) && uid in d.users
    requires g in d.groups && Count(d.groups[g], uid) >= 2
    ensures g in Derived(Deleted(d, uid), uid)
  {
    DeletedMembership(d, uid, uid);
  }

  /** Membership is derived from the listed groups alone: the lists of groups `order` does not name do not matter. */
  lemma {:induction false} MembershipFrame(order: seq<string>, groups: map<string, seq<string>>, groups': map<string, seq<string>>, uid: string)
    requires Indexed(order, groups) && Indexed(order, groups')
    requires forall g :: g in order ==> groups[g] == groups'[g]
    ensures Membership(order, groups, uid) == Membership(order, groups', uid)
    decreases |order|
  {
    if order != [] {
      MembershipFrame(order[..|order| - 1], groups, groups', uid);
    }
  }

  /** A newly created group is empty, so nobody's derived group list changes. */
  lemma GroupAddedMembership(d: Dir, name: string, v: string)
    requires WellFormed(d) && name !in d.groups
    ensures Derived(GroupAdded(d, name), v) == Derived(d, v)
  {
    var groups, order := d.groups[name := []], d.order + [name];
    assert GroupAdded(d, name) == Dir(d.users, groups, order);
    assert Membership(order, groups, v) == Membership(d.order, groups, v) by {
      assert order[..|order| - 1] == d.order;
    }
    assert Membership(d.order, groups, v) == Membership(d.order, d.groups, v) by {
      assert forall g :: g in d.order ==> g != name && groups[g] == d.groups[g];
      MembershipFrame(d.order, d.groups, groups, v);
    }
  }

  /**
    After the member list of `name` is replaced by `members`, user `v` is derived
    to belong to `name` exactly when `members` lists `v`; its other groups stay as they were.
   */
  lemma GroupReplacedMembership(d: Dir, name: string, members: seq<string>, v: string)
    requires WellFormed(d) && name in d.groups
    ensures forall g :: g in Derived(GroupReplaced(d, name, members), v) <==>
      if g == name then v in members else g in Derived(d, v)
  {
  }

  /**
    After group `name` is deleted, every user's derived group list is the old
    one with `name` taken out: the remaining groups keep their order.
   */
  lemma GroupRemovedMembership(d: Dir, name: string, v: string)
    requires WellFormed(d) && name in d.groups
    ensures Derived(GroupRemoved(d, name), v) == RemoveFirst(Derived(d, v), name)
    ensures forall g :: g in Derived(GroupRemoved(d, name), v) <==> g != name && g in Derived(d, v)
  {
    var r := GroupRemoved(d, name);
    MembershipRemove(d.order, d.groups, r.groups, name, v);
    MembershipOrdered(d.order, d.groups, v);
    RemoveFirstDistinct(Derived(d, v), name);
  }

  /**
    Taking one key out of a key order without repetitions takes that group,
    and nothing else, out of the derived list, provided the other keys keep their lists.
   */
  lemma {:induction false} MembershipRemove(order: seq<string>, groups: map<string, seq<string>>, groups': map<string, seq<string>>, name: string, uid: string)
    requires Indexed(order, groups) && Distinct(order) && name in order
    requires Indexed(RemoveFirst(order, name), groups')
    requires forall g :: g in order && g != name ==> g in groups' && groups'[g] == groups[g]
    ensures Membership(RemoveFirst(order, name), groups', uid) == RemoveFirst(Membership(order, groups, uid), name)
    decreases |order|
  {
    var a, x := order[..|order| - 1], order[|order| - 1];
    assert order == a + [x];
    DistinctInit(order);
    if x == name {
      MembershipRemoveLast(a, groups, groups', name, uid);
    } else {
      RemoveFirstDistinct(a, name);
      MembershipRemove(a, groups, groups', name, uid);
      MembershipRemoveStep(a, x, groups, groups', name, uid);
    }
  }

  /** `MembershipRemove` when the key taken out is the last one visited. */
  lemma MembershipRemoveLast(a: seq<string>, groups: map<string, seq<string>>, groups': map<string, seq<string>>, name: string, uid: string)
    requires Indexed(a + [name], groups) && name !in a
    requires forall g :: g in a ==> g in groups' && groups'[g] == groups[g]
    ensures Indexed(a, groups')
    ensures Membership(RemoveFirst(a + [name], name), groups', uid) == RemoveFirst(Membership(a + [name], groups, uid), name)
  {
    var ma := Membership(a, groups, uid);
    assert (a + [name])[..|a|] == a;
    assert Membership(a + [name], groups, uid) == ma + (if uid in groups[name] then [name] else []);
    RemoveFirstLast(a, name);
    MembershipFrame(a, groups, groups', uid);
    if uid in groups[name] {
      RemoveFirstLast(ma, name);
    }
  }

  /** The induction step of `MembershipRemove`, for a last key other than the one taken out. */
  lemma MembershipRemoveStep(a: seq<string>, x: string, groups: map<string, seq<string>>, groups': map<string, seq<string>>, name: string, uid: string)
    requires Indexed(a + [x], groups) && x != name
    requires Indexed(RemoveFirst(a, name), groups') && x in groups' && groups'[x] == groups[x]
    requires Membership(RemoveFirst(a, name), groups', uid) == RemoveFirst(Membership(a, groups, uid), name)
    ensures Indexed(RemoveFirst(a + [x], name), groups')
    ensures Membership(RemoveFirst(a + [x], name), groups', uid) == RemoveFirst(Membership(a + [x], groups, uid), name)
  {
    var b, ma := RemoveFirst(a, name), Membership(a, groups, uid);
    var tail := if uid in groups[x] then [x] else [];
    assert (a + [x])[..|a|] == a;
    assert Membership(a + [x], groups, uid) == ma + tail;
    RemoveFirstAppend(a, [x], name);
    assert (b + [x])[..|b|] == b;
    assert Membership(b + [x], groups', uid) == Membership(b, groups', uid) + tail;
    RemoveFirstAppend(ma, tail, name);
  }

  /**
    The group list the user-create route returns for a new user: the groups
    named in the request, together with every group whose list already named
    that userid (a group-replace may list ids no user has yet).
   */
  lemma PostedGroups(d: Dir, first: string, last: string, uid: string, gs: seq<string>)
    requires WellFormed(d)
    ensures var c := Created(d, first, last, uid, gs);
      forall g :: g in Read(c, uid).users[uid].groups.value <==>
        g in gs || (g in d.groups && uid in d.groups[g])
  {
    var c := Created(d, first, last, uid, gs);
    forall g ensures g in Read(c, uid).users[uid].groups.value <==> g in gs || (g in d.groups && uid in d.groups[g]) {
      CreatedEntry(d, first, last, uid, gs, uid, g);
    }
  }

  /** Reading a user again without a mutation in between changes nothing more. */
  lemma ReadIdempotent(d: Dir, uid: string)
    requires WellFormed(d) && uid in d.users
    ensures Read(Read(d, uid), uid) == Read(d, uid)
  {
  }

  /** The record `get_user` writes before a delete disappears with the delete. */
  lemma ReadThenDeleted(d: Dir, uid: string)
    requires WellFormed(d) && uid in d.users
    ensures Deleted(Read(d, uid), uid) == Deleted(d, uid)
  {
  }
}
