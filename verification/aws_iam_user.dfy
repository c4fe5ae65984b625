/**
 The IAM user states: `present` creates a missing user and, when asked,
 gives a user without access keys one; `absent` deletes every access key of
 an existing user and then the user.
 */
module AwsIamUser {
  import opened Common

  /** What `get_user` returns for an existing user; its fields are not used. */
  datatype User = User(userName: string)

  /** One entry of `list_access_keys`. */
  datatype AccessKey = AccessKey(accessKeyId: string)

  /** The mutating calls into IAM. */
  datatype Call =
    | CreateUser(user: string)
    | CreateAccessKey(user: string)
    | DeleteAccessKey(user: string, keyId: string)
    | DeleteUser(user: string)

  /** The `create_access_key` change: `{name}` as planned under dry run, or
      whatever `create_access_key` returned (None when it failed). */
  datatype KeyChange = PlannedKey(name: string) | NewKey(key: Option<AccessKey>)

  /** The `create_user` (its `name`), `create_access_key`,
      `delete_access_key` and `delete_user` entries of `changes`. */
  datatype Changes = Changes(
    createUser: Option<string>,
    createAccessKey: Option<KeyChange>,
    deleteAccessKey: Option<seq<string>>,
    deleteUser: Option<string>)

  const NoChanges: Changes := Changes(None, None, None, None)

  /** The returned record (None where the source returns nothing) and the
      calls issued, in order. */
  datatype Run = Run(ret: Option<Ret<Changes, string>>, calls: seq<Call>)

  /** What IAM answers during one run: `get_user`, the keys
      `list_access_keys` reports, whether a call goes through (for
      `create_user`, a non-None response), and `create_access_key`'s
      response. */
  datatype Service = Service(user: Option<User>, keys: seq<AccessKey>, ok: Call -> bool, newKey: Option<AccessKey>)

  /** `present`; `wantKeys` is the `keys` argument. */
  function Present(name: string, wantKeys: bool, dryRun: bool, svc: Service): (r: Run)
    // a missing user under dry run returns nothing and calls nothing
    ensures r.ret.None? <==> svc.user.None? && dryRun
    ensures r.ret.None? ==> r.calls == []
    ensures r.ret.Some? ==> r.ret.value.name == name
    // a failed creation is reported and ends the run
    ensures r.ret.Some? && !r.ret.value.result <==> svc.user.None? && !dryRun && !svc.ok(CreateUser(name))
    ensures r.ret.Some? && !r.ret.value.result ==>
              r.ret.value == Ret(name, NoChanges, false, "Error creating user") && r.calls == [CreateUser(name)]
    ensures r.ret.Some? && r.ret.value.result ==> r.ret.value.comment == ""
    // `create_user` is recorded exactly when a user was created
    ensures r.ret.Some? && r.ret.value.result ==>
              r.ret.value.changes.createUser == (if svc.user.None? then Some(name) else None)
    // a key is planned exactly when asked for and the user has none
    ensures r.ret.Some? && r.ret.value.result ==>
              (r.ret.value.changes.createAccessKey.Some? <==> wantKeys && |svc.keys| == 0)
    ensures r.ret.Some? && r.ret.value.changes.createAccessKey.Some? ==>
              r.ret.value.changes.createAccessKey.value
                == (if dryRun then PlannedKey(name) else NewKey(svc.newKey))
    // nothing is deleted
    ensures r.ret.Some? ==> r.ret.value.changes.deleteAccessKey.None? && r.ret.value.changes.deleteUser.None?
    // the calls: the creation of a missing user, then that of a key
    ensures CreateUser(name) in r.calls <==> svc.user.None? && !dryRun
    ensures CreateAccessKey(name) in r.calls <==>
              r.ret.Some? && r.ret.value.changes.createAccessKey.Some? && !dryRun
    ensures forall c :: c in r.calls ==> c == CreateUser(name) || c == CreateAccessKey(name)
    ensures dryRun ==> r.calls == []
  {
    if svc.user.None? && dryRun then Run(None, [])
    else if svc.user.None? && !svc.ok(CreateUser(name)) then
      Run(Some(Ret(name, NoChanges, false, "Error creating user")), [CreateUser(name)])
    else
      var created := if svc.user.None? then Some(name) else None;
      var before := if svc.user.None? then [CreateUser(name)] else [];
      if wantKeys && |svc.keys| == 0 then
        if dryRun then Run(Some(Ret(name, Changes(created, Some(PlannedKey(name)), None, None), true, "")), before)
        else Run(Some(Ret(name, Changes(created, Some(NewKey(svc.newKey)), None, None), true, "")),
                 before + [CreateAccessKey(name)])
      else Run(Some(Ret(name, Changes(created, None, None, None), true, "")), before)
  }

  /** How each call acts on the set of existing user names. */
  function UserTarget(c: Call): Op<string>
  {
    match c
    case CreateUser(u) => Insert(u)
    case DeleteUser(u) => Erase(u)
    case _ => Untouched
  }

  /** How each call acts on the access-key ids of `user`; `created` is the
      id of the key `create_access_key` makes. */
  function KeyTarget(user: string, created: string): Call -> Op<string>
  {
    (c: Call) => match c
      case CreateAccessKey(u) => if u == user then Insert(created) else Untouched
      case DeleteAccessKey(u, id) => if u == user then Erase(id) else Untouched
      case _ => Untouched
  }

  function KeyIds(keys: seq<AccessKey>): (r: seq<string>)
    ensures |r| == |keys| && forall k :: 0 <= k < |keys| ==> r[k] == keys[k].accessKeyId
  {
    MapSeq((key: AccessKey) => key.accessKeyId, keys)
  }

  /** A real, successful `present` whose calls all go through leaves the
      user in place, and with at least one access key when keys were asked
      for and `create_access_key` answered with one. */
  lemma PresentLeavesUserWithKey(name: string, wantKeys: bool, svc: Service, users: set<string>)
    requires Present(name, wantKeys, false, svc).ret.Some? && Present(name, wantKeys, false, svc).ret.value.result
    requires forall c :: c in Present(name, wantKeys, false, svc).calls ==> svc.ok(c)
    requires svc.user.Some? ==> name in users
    ensures name in Effect(users, Present(name, wantKeys, false, svc).calls, svc.ok, UserTarget)
    ensures wantKeys && svc.newKey.Some? ==>
              Effect(Elems(KeyIds(svc.keys)), Present(name, wantKeys, false, svc).calls, svc.ok,
                     KeyTarget(name, svc.newKey.value.accessKeyId)) != {}
  {
    var calls := Present(name, wantKeys, false, svc).calls;
    var before := if svc.user.None? then [CreateUser(name)] else [];
    var after := calls[|before|..];
    assert calls == before + after;
    assert after == [] || after == [CreateAccessKey(name)];
    EffectAppend(users, before, after, svc.ok, UserTarget);
    EffectUntouched(Effect(users, before, svc.ok, UserTarget), after, svc.ok, UserTarget);
    if before != [] {
      assert before[1..] == [];
    }
    if wantKeys && svc.newKey.Some? {
      var target := KeyTarget(name, svc.newKey.value.accessKeyId);
      var s := Elems(KeyIds(svc.keys));
      EffectAppend(s, before, after, svc.ok, target);
      EffectUntouched(s, before, svc.ok, target);
      if |svc.keys| == 0 {
        assert after == [CreateAccessKey(name)] && after[1..] == [];
        assert svc.newKey.value.accessKeyId in Effect(s, after, svc.ok, target);
      } else {
        assert svc.keys[0].accessKeyId in s;
        EffectUntouched(s, after, svc.ok, target);
      }
    }
  }

  function DeleteKeyOf(user: string): string -> Call
  {
    id => DeleteAccessKey(user, id)
  }

  /** `absent`; `keys` is what `list_access_keys` reports (a None listing
      is a crash and is not modelled). */
  function Absent(name: string, dryRun: bool, user: Option<User>, keys: seq<AccessKey>): (r: Run)
    // always a successful record with no comment
    ensures r.ret.Some? && r.ret.value.name == name && r.ret.value.result && r.ret.value.comment == ""
    // a missing user: nothing to do
    ensures user.None? ==> r.ret.value.changes == NoChanges && r.calls == []
    // an existing user: every key id in list order, then the user
    ensures user.Some? ==>
              && r.ret.value.changes.createUser.None? && r.ret.value.changes.createAccessKey.None?
              && r.ret.value.changes.deleteAccessKey == (if |keys| == 0 then None else Some(KeyIds(keys)))
              && r.ret.value.changes.deleteUser == Some(name)
    // the key deletions precede the user deletion, which comes last
    ensures user.Some? && !dryRun ==>
              && |r.calls| == |keys| + 1
              && (forall k :: 0 <= k < |keys| ==> r.calls[k] == DeleteAccessKey(name, keys[k].accessKeyId))
              && r.calls[|keys|] == DeleteUser(name)
    ensures dryRun ==> r.calls == []
  {
    if user.None? then Run(Some(Ret(name, NoChanges, true, "")), [])
    else
      var ids := KeyIds(keys);
      var changes := Changes(None, None, if |keys| == 0 then None else Some(ids), Some(name));
      Run(Some(Ret(name, changes, true, "")),
          if dryRun then [] else MapSeq(DeleteKeyOf(name), ids) + [DeleteUser(name)])
  }

  /** Dry run records the very changes a real run records. */
  lemma AbsentDryRunRecordsAlike(name: string, user: Option<User>, keys: seq<AccessKey>)
    ensures Absent(name, true, user, keys).ret == Absent(name, false, user, keys).ret
  {
  }

  /** A real `absent` on an existing user whose calls all go through leaves
      the user without access keys and then without the user. */
  lemma AbsentRemovesUser(name: string, keys: seq<AccessKey>, ok: Call -> bool, users: set<string>, created: string)
    requires forall c :: c in Absent(name, false, Some(User(name)), keys).calls ==> ok(c)
    ensures var calls := Absent(name, false, Some(User(name)), keys).calls;
            && Effect(Elems(KeyIds(keys)), calls, ok, KeyTarget(name, created)) == {}
            && Effect(users, calls, ok, UserTarget) == users - {name}
  {
    var calls := Absent(name, false, Some(User(name)), keys).calls;
    var ids := KeyIds(keys);
    var deletes := MapSeq(DeleteKeyOf(name), ids);
    assert calls == deletes + [DeleteUser(name)];
    var target := KeyTarget(name, created);
    forall id | id in ids ensures ok(DeleteKeyOf(name)(id)) && target(DeleteKeyOf(name)(id)) == Erase(id) {
      var k :| 0 <= k < |ids| && ids[k] == id;
      assert calls[k] == DeleteAccessKey(name, id);
    }
    EffectAppend(Elems(ids), deletes, [DeleteUser(name)], ok, target);
    EffectOfDeletes(Elems(ids), ids, DeleteKeyOf(name), ok, target);
    EffectUntouched({}, [DeleteUser(name)], ok, target);
    EffectAppend(users, deletes, [DeleteUser(name)], ok, UserTarget);
    forall c | c in deletes ensures UserTarget(c) == Untouched {
      var k :| 0 <= k < |deletes| && deletes[k] == c;
    }
    EffectUntouched(users, deletes, ok, UserTarget);
    assert calls[|keys|] == DeleteUser(name);
    assert [DeleteUser(name)][1..] == [];
  }
}
