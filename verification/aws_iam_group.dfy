/**
 The IAM group states: `present` creates a missing group with its listed
 members, or reconciles the `UserName`s of an existing group against the
 listed ones; `absent` deletes a group that exists. No response of a
 mutating call is ever looked at.
 */
module AwsIamGroup {
  import opened Common

  /** One entry of the `Users` list `get_group` returns. */
  datatype GroupUser = GroupUser(userName: string)

  /** What `get_group` returns for an existing group. */
  datatype Group = Group(users: seq<GroupUser>)

  /** The arguments of `present`; `members` None leaves membership alone. */
  datatype Request = Request(name: string, members: Option<seq<string>>, strict: bool, dryRun: bool)

  /** The mutating calls into IAM. */
  datatype Call =
    | CreateGroup(group: string)
    | AddUserToGroup(user: string, group: string)
    | RemoveUserFromGroup(user: string, group: string)
    | DeleteGroup(group: string)

  /** The `create_group` change, `{name, members}`. */
  datatype NewGroup = NewGroup(name: string, members: Option<seq<string>>)

  /** The `create_group`, `add_user_to_group` and `remove_user_from_group`
      entries of `changes`; the latter two list `(user, group)` pairs. */
  datatype Changes = Changes(
    createGroup: Option<NewGroup>,
    addUserToGroup: Option<seq<(string, string)>>,
    removeUserFromGroup: Option<seq<(string, string)>>)

  const NoChanges: Changes := Changes(None, None, None)

  /** The returned record (None where the source returns nothing) and the
      calls issued, in order. */
  datatype Run = Run(ret: Option<Ret<Changes, string>>, calls: seq<Call>)

  /** The observed members of a group. */
  function UserNames(g: Group): (r: set<string>)
    ensures forall u :: u in r <==> exists k :: 0 <= k < |g.users| && g.users[k].userName == u
  {
    set x | x in g.users :: x.userName
  }

  function Plan(req: Request, g: Group): (d: Diff<string>)
    requires req.members.Some?
    ensures d.toAdd == Elems(req.members.value) - UserNames(g)
    ensures d.toRemove == if req.strict then UserNames(g) - Elems(req.members.value) else {}
  {
    SetDiff(Elems(req.members.value), UserNames(g), req.strict)
  }

  function AddTo(group: string): string -> Call
  {
    u => AddUserToGroup(u, group)
  }

  function RemoveFrom(group: string): string -> Call
  {
    u => RemoveUserFromGroup(u, group)
  }

  /** A recorded list of users as the `(user, group)` pairs the source appends. */
  function Pairs(group: string, users: Option<seq<string>>): (r: Option<seq<(string, string)>>)
    ensures r.Some? <==> users.Some?
    ensures users.Some? ==> |r.value| == |users.value|
    ensures users.Some? ==> forall k :: 0 <= k < |users.value| ==> r.value[k] == (users.value[k], group)
  {
    if users.Some? then Some(MapSeq(u => (u, group), users.value)) else None
  }

  /** The users of a recorded list of pairs. */
  function Users(pairs: Option<seq<(string, string)>>): seq<string>
  {
    MapSeq((q: (string, string)) => q.0, Ledger(pairs))
  }

  /** Membership reconciliation: each change is recorded whatever the call
      returns, so the pass runs under the oracle that accepts every call. */
  ghost function PassOf(req: Request, g: Group): (p: Pass<string>)
    requires req.members.Some?
    ensures p.failure.None?
  {
    AddThenRemove(Plan(req, g), req.dryRun, Unchecked(), Unchecked())
  }

  /** The membership step of `present` on an existing group. */
  ghost function Reconcile(req: Request, g: Group): (r: Run)
    requires req.members.Some?
    ensures r.ret.Some? && r.ret.value.name == req.name && r.ret.value.result && r.ret.value.comment == ""
    ensures r.ret.value.changes.createGroup.None?
    ensures forall c :: c in r.calls ==> GroupTarget(c) == Untouched
    ensures req.dryRun ==> r.calls == []
  {
    var p := PassOf(req, g);
    PassCallsAre(p, req.dryRun, AddTo(req.name), RemoveFrom(req.name), (c: Call) => GroupTarget(c) == Untouched);
    Run(Some(Ret(req.name, Changes(None, Pairs(req.name, p.added), Pairs(req.name, p.removed)), true, "")),
        PassCalls(p, req.dryRun, AddTo(req.name), RemoveFrom(req.name)))
  }

  /** `present`; `group` is the response of `get_group`, None when missing. */
  ghost function Present(req: Request, group: Option<Group>): (r: Run)
    // iterating `members` None after creating a group is a crash
    requires group.None? && !req.dryRun ==> req.members.Some?
    // a missing group under dry run returns nothing and calls nothing
    ensures r.ret.None? <==> group.None? && req.dryRun
    ensures r.ret.None? ==> r.calls == []
    // a record is returned with the name, success and no comment
    ensures r.ret.Some? ==> r.ret.value.name == req.name && r.ret.value.result && r.ret.value.comment == ""
    // a missing group is created, then every listed member is added in list order
    ensures group.None? && !req.dryRun ==>
              && r.ret.value.changes == Changes(Some(NewGroup(req.name, req.members)), None, None)
              && |r.calls| == |req.members.value| + 1
              && r.calls[0] == CreateGroup(req.name)
              && forall k :: 0 <= k < |req.members.value| ==> r.calls[k + 1] == AddUserToGroup(req.members.value[k], req.name)
    // an existing group is neither created nor deleted, and membership None means unmanaged
    ensures group.Some? ==> r.ret.value.changes.createGroup.None? && forall c :: c in r.calls ==> GroupTarget(c) == Untouched
    ensures group.Some? && req.members.None? ==> r.ret.value.changes == NoChanges && r.calls == []
    // dry run issues no call
    ensures req.dryRun ==> r.calls == []
  {
    if group.None? then
      if req.dryRun then Run(None, [])
      else
        Run(Some(Ret(req.name, Changes(Some(NewGroup(req.name, req.members)), None, None), true, "")),
            [CreateGroup(req.name)] + MapSeq(AddTo(req.name), req.members.value))
    else if req.members.None? then
      Run(Some(Ret(req.name, NoChanges, true, "")), [])
    else
      Reconcile(req, group.value)
  }

  /** Reconciling an existing group records the whole set difference by
      `UserName`: each missing member once, and each unlisted member once
      under strict mode only; a key appears only for a non-empty side. */
  lemma PresentRecordsPlan(req: Request, g: Group)
    requires req.members.Some?
    ensures var c := Present(req, Some(g)).ret.value.changes;
            && (c.addUserToGroup.Some? <==> Plan(req, g).toAdd != {})
            && (c.removeUserFromGroup.Some? <==> Plan(req, g).toRemove != {})
            && (!req.strict ==> c.removeUserFromGroup.None?)
            && NoDup(Users(c.addUserToGroup)) && Elems(Users(c.addUserToGroup)) == Elems(req.members.value) - UserNames(g)
            && NoDup(Users(c.removeUserFromGroup))
            && Elems(Users(c.removeUserFromGroup)) == (if req.strict then UserNames(g) - Elems(req.members.value) else {})
            && (forall q :: q in Ledger(c.addUserToGroup) ==> q.1 == req.name)
            && (forall q :: q in Ledger(c.removeUserFromGroup) ==> q.1 == req.name)
  {
    var p := PassOf(req, g);
    UsersOfPairs(req.name, p.added);
    UsersOfPairs(req.name, p.removed);
  }

  lemma UsersOfPairs(group: string, users: Option<seq<string>>)
    ensures Users(Pairs(group, users)) == Ledger(users)
    ensures forall q :: q in Ledger(Pairs(group, users)) ==> q.1 == group
  {
  }

  /** Each change is recorded before its call and the call's result is
      ignored: without dry run an existing group gets exactly one call per
      recorded user, in the recorded order, additions first. */
  lemma PresentCallsRecorded(req: Request, g: Group)
    requires req.members.Some? && !req.dryRun
    ensures var r := Present(req, Some(g));
            r.calls == MapSeq(AddTo(req.name), Users(r.ret.value.changes.addUserToGroup))
                       + MapSeq(RemoveFrom(req.name), Users(r.ret.value.changes.removeUserFromGroup))
  {
    var p := PassOf(req, g);
    assert Present(req, Some(g)) == Reconcile(req, g);
    FinishedCalls(p, AddTo(req.name), RemoveFrom(req.name));
    UsersOfPairs(req.name, p.added);
    UsersOfPairs(req.name, p.removed);
  }

  /** Dry run records the very changes a real run records. */
  lemma DryRunRecordsAlike(req: Request, g: Group)
    requires req.members.Some?
    ensures Present(req.(dryRun := true), Some(g)).ret == Present(req.(dryRun := false), Some(g)).ret
  {
    PassAllOk(Plan(req, g), Unchecked(), Unchecked());
  }

  /** How each call acts on the members of `group`. */
  function MemberTarget(group: string): Call -> Op<string>
  {
    (c: Call) => match c
      case AddUserToGroup(u, g) => if g == group then Insert(u) else Untouched
      case RemoveUserFromGroup(u, g) => if g == group then Erase(u) else Untouched
      case _ => Untouched
  }

  /** When every call goes through, an existing group ends with exactly the
      listed members under strict mode, and with the listed ones added to
      its own otherwise. */
  lemma PresentConverges(req: Request, g: Group, ok: Call -> bool)
    requires req.members.Some? && !req.dryRun
    requires forall c :: c in Present(req, Some(g)).calls ==> ok(c)
    ensures var after := Effect(UserNames(g), Present(req, Some(g)).calls, ok, MemberTarget(req.name));
            && (req.strict ==> after == Elems(req.members.value))
            && (!req.strict ==> after == UserNames(g) + Elems(req.members.value))
  {
    var p := PassOf(req, g);
    assert Present(req, Some(g)) == Reconcile(req, g);
    TruthfulWhenAllOk(p, AddTo(req.name), RemoveFrom(req.name), ok);
    PassEffect(UserNames(g), p, AddTo(req.name), RemoveFrom(req.name), ok, MemberTarget(req.name));
    PlanConverges(Elems(req.members.value), UserNames(g), req.strict);
  }

  /** When every call goes through, a created group holds exactly the
      listed members. */
  lemma CreateConverges(req: Request, ok: Call -> bool)
    requires req.members.Some? && !req.dryRun
    requires forall c :: c in Present(req, None).calls ==> ok(c)
    ensures Effect({}, Present(req, None).calls, ok, MemberTarget(req.name)) == Elems(req.members.value)
  {
    var adds := MapSeq(AddTo(req.name), req.members.value);
    assert Present(req, None).calls == [CreateGroup(req.name)] + adds;
    EffectAppend({}, [CreateGroup(req.name)], adds, ok, MemberTarget(req.name));
    EffectUntouched({}, [CreateGroup(req.name)], ok, MemberTarget(req.name));
    forall u | u in req.members.value ensures ok(AddTo(req.name)(u)) {
      var k :| 0 <= k < |req.members.value| && req.members.value[k] == u;
      assert Present(req, None).calls[k + 1] == AddTo(req.name)(u);
    }
    EffectOfInserts({}, req.members.value, AddTo(req.name), ok, MemberTarget(req.name));
  }

  /** `absent`: nothing is returned for a missing group; otherwise the group
      is deleted unless dry run, and success is reported with no changes. */
  function Absent(name: string, group: Option<Group>, dryRun: bool): (r: Run)
    ensures r.ret.None? <==> group.None?
    ensures r.ret.Some? ==> r.ret.value == Ret(name, NoChanges, true, "")
    ensures DeleteGroup(name) in r.calls <==> group.Some? && !dryRun
    ensures forall c :: c in r.calls ==> c == DeleteGroup(name)
  {
    if group.None? then Run(None, [])
    else Run(Some(Ret(name, NoChanges, true, "")), if dryRun then [] else [DeleteGroup(name)])
  }

  /** How each call acts on the set of existing group names. */
  function GroupTarget(c: Call): Op<string>
  {
    match c
    case CreateGroup(g) => Insert(g)
    case DeleteGroup(g) => Erase(g)
    case _ => Untouched
  }

  /** After `absent` the group is gone, provided the delete call goes
      through; other groups are untouched. */
  lemma AbsentRemovesGroup(name: string, g: Group, groups: set<string>, ok: Call -> bool)
    requires ok(DeleteGroup(name))
    ensures Effect(groups, Absent(name, Some(g), false).calls, ok, GroupTarget) == groups - {name}
  {
    assert Absent(name, Some(g), false).calls == [DeleteGroup(name)];
    assert Effect(groups, [DeleteGroup(name)], ok, GroupTarget)
        == Effect(groups - {name}, [DeleteGroup(name)][1..], ok, GroupTarget);
    assert [DeleteGroup(name)][1..] == [];
  }

  /** After a real `present` on a missing group that goes through, the group exists. */
  lemma PresentCreatesGroup(req: Request, groups: set<string>, ok: Call -> bool)
    requires req.members.Some? && !req.dryRun
    requires forall c :: c in Present(req, None).calls ==> ok(c)
    ensures req.name in Effect(groups, Present(req, None).calls, ok, GroupTarget)
  {
    var adds := MapSeq(AddTo(req.name), req.members.value);
    assert Present(req, None).calls == [CreateGroup(req.name)] + adds;
    assert CreateGroup(req.name) in Present(req, None).calls;
    EffectAppend(groups, [CreateGroup(req.name)], adds, ok, GroupTarget);
    assert Effect(groups, [CreateGroup(req.name)], ok, GroupTarget)
        == Effect(groups + {req.name}, [CreateGroup(req.name)][1..], ok, GroupTarget);
    assert [CreateGroup(req.name)][1..] == [];
    forall c | c in adds ensures GroupTarget(c) == Untouched {
      var k :| 0 <= k < |adds| && adds[k] == c;
    }
    EffectUntouched(groups + {req.name}, adds, ok, GroupTarget);
  }
}
