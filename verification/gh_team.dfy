/**
 The GitHub team states: `present` finds the team by name (creating it when
 missing), corrects its permission, then reconciles its members (by `login`)
 and its repos (by `full_name`), stopping at the first failure; `absent`
 removes a team found by name.
 */
module GhTeam {
  import opened Common

  /** A team as `gh_team.list` lists it and `gh_team.add` returns it. */
  datatype Team = Team(id: int, name: string, permission: string)

  /** An entry of `gh_team.list_members`. */
  datatype Member = Member(login: string)

  /** An entry of `gh_team.list_repos`. */
  datatype Repo = Repo(fullName: string)

  /** The arguments of `present` (the token is left out); None for
      `members`, `permission` or `repos` leaves that aspect alone. */
  datatype Request = Request(
    name: string, org: string,
    members: Option<seq<string>>, permission: Option<string>, repos: Option<seq<string>>,
    strict: bool, dryRun: bool)

  /** The mutating calls into the GitHub team API. */
  datatype Call =
    | AddTeam(org: string, name: string, permission: Option<string>, repos: Option<seq<string>>)
    | EditTeam(team: int, teamName: string, level: string)
    | AddMember(team: int, item: string)
    | RemoveMember(team: int, item: string)
    | AddRepo(team: int, item: string)
    | RemoveRepo(team: int, item: string)
    | RemoveTeam(team: int)

  /** The `add` change, `{org, name, permission, repos}`. */
  datatype NewTeam = NewTeam(org: string, name: string, permission: Option<string>, repos: Option<seq<string>>)

  /** The `edit` change, `{team, name, permission}`. */
  datatype Edit = Edit(team: int, name: string, permission: string)

  /** The `add`, `edit`, `add_member`, `remove_member`, `add_repo` and
      `remove_repo` entries of `changes`. */
  datatype Changes = Changes(
    add: Option<NewTeam>, edit: Option<Edit>,
    addMember: Option<seq<string>>, removeMember: Option<seq<string>>,
    addRepo: Option<seq<string>>, removeRepo: Option<seq<string>>)

  const NoChanges: Changes := Changes(None, None, None, None, None, None)

  /** The returned record (None where the source returns nothing) and the
      calls issued, in order. */
  datatype Run = Run(ret: Option<Ret<Changes, string>>, calls: seq<Call>)

  /** What GitHub answers during one run: the team list, the response of
      `gh_team.add` (None when it fails), the `permission` `gh_team.get`
      reports for a team id, the member and repo listings (None when the
      fetch fails), and whether each other call gets a truthy response. */
  datatype Service = Service(
    teams: seq<Team>, created: Option<Team>, permissionOf: int -> string,
    members: Option<seq<Member>>, repos: Option<seq<Repo>>,
    ok: Call -> bool)

  /** The position of the first listed team called `name`, if any. */
  function FindTeam(teams: seq<Team>, name: string): (r: Option<nat>)
    ensures r.Some? ==> r.value < |teams| && teams[r.value].name == name
    ensures r.Some? ==> forall k :: 0 <= k < r.value ==> teams[k].name != name
    ensures r.None? ==> forall k :: 0 <= k < |teams| ==> teams[k].name != name
    decreases |teams|
  {
    if teams == [] then None
    else if teams[0].name == name then Some(0)
    else
      var r := FindTeam(teams[1..], name);
      assert forall k :: 1 <= k < |teams| ==> teams[k] == teams[1..][k - 1];
      if r.Some? then Some(r.value + 1) else None
  }

  /** The two collections a team's state covers. */
  datatype Kind = Members | Repos

  function AddCall(kind: Kind, team: int): string -> Call
  {
    x => if kind == Members then AddMember(team, x) else AddRepo(team, x)
  }

  function RemoveCall(kind: Kind, team: int): string -> Call
  {
    x => if kind == Members then RemoveMember(team, x) else RemoveRepo(team, x)
  }

  /** The collection a call works on, if any. */
  function KindOf(c: Call): Option<Kind>
  {
    match c
    case AddMember(_, _) => Some(Members)
    case RemoveMember(_, _) => Some(Members)
    case AddRepo(_, _) => Some(Repos)
    case RemoveRepo(_, _) => Some(Repos)
    case _ => None
  }

  /** How each call acts on one collection of team `team`. */
  function Target(kind: Kind, team: int): Call -> Op<string>
  {
    (c: Call) =>
      if KindOf(c) != Some(kind) || c.team != team then Untouched
      else if c.AddMember? || c.AddRepo? then Insert(c.item)
      else Erase(c.item)
  }

  /** Whether a call works on the given collection of team `team`. */
  function On(kind: Kind, team: int): Call -> bool
  {
    c => KindOf(c) == Some(kind) && c.team == team
  }

  lemma CallsOfKind(kind: Kind, team: int)
    ensures forall x :: On(kind, team)(AddCall(kind, team)(x)) && On(kind, team)(RemoveCall(kind, team)(x))
    ensures forall x :: Target(kind, team)(AddCall(kind, team)(x)) == Insert(x)
    ensures forall x :: Target(kind, team)(RemoveCall(kind, team)(x)) == Erase(x)
  {
    forall x ensures On(kind, team)(AddCall(kind, team)(x)) && On(kind, team)(RemoveCall(kind, team)(x)) {
    }
    forall x ensures Target(kind, team)(AddCall(kind, team)(x)) == Insert(x) {
    }
    forall x ensures Target(kind, team)(RemoveCall(kind, team)(x)) == Erase(x) {
    }
  }

  function FetchError(kind: Kind): string
  {
    if kind == Members then "Error fetching team members" else "Error fetching repos"
  }

  function AddError(kind: Kind, x: string): string
  {
    if kind == Members then "Error adding " + x + " to team" else "Error adding repo " + x + " to team"
  }

  function RemoveError(kind: Kind, x: string): string
  {
    if kind == Members then "Error removing " + x + " from team" else "Error removing repo " + x + " from team"
  }

  /** The observed collection: logins of the members, full names of the repos. */
  function Observed(svc: Service, kind: Kind): (r: Option<set<string>>)
    ensures kind == Members ==> (r.Some? <==> svc.members.Some?)
    ensures kind == Repos ==> (r.Some? <==> svc.repos.Some?)
    ensures kind == Members && r.Some? ==>
              forall x :: x in r.value <==> exists k :: 0 <= k < |svc.members.value| && svc.members.value[k].login == x
    ensures kind == Repos && r.Some? ==>
              forall x :: x in r.value <==> exists k :: 0 <= k < |svc.repos.value| && svc.repos.value[k].fullName == x
  {
    if kind == Members then
      if svc.members.Some? then Some(set m | m in svc.members.value :: m.login) else None
    else
      if svc.repos.Some? then Some(set p | p in svc.repos.value :: p.fullName) else None
  }

  function Desired(req: Request, kind: Kind): Option<seq<string>>
  {
    if kind == Members then req.members else req.repos
  }

  /** The recorded additions and removals of one collection. */
  function Added(c: Changes, kind: Kind): Option<seq<string>>
  {
    if kind == Members then c.addMember else c.addRepo
  }

  function Removed(c: Changes, kind: Kind): Option<seq<string>>
  {
    if kind == Members then c.removeMember else c.removeRepo
  }

  /** What one collection step recorded and called, and its error, if any. */
  datatype Sync = Sync(added: Option<seq<string>>, removed: Option<seq<string>>, calls: seq<Call>, error: Option<string>)

  ghost function SyncPass(kind: Kind, team: int, desired: seq<string>, observed: set<string>, strict: bool, dryRun: bool, ok: Call -> bool): Pass<string>
  {
    AddThenRemove(SetDiff(Elems(desired), observed, strict), dryRun, Through(ok, AddCall(kind, team)), Through(ok, RemoveCall(kind, team)))
  }

  /** One collection step: skipped when not managed, failed when the listing
      cannot be fetched, otherwise an add-then-remove pass. */
  ghost function SyncStep(kind: Kind, team: int, desired: Option<seq<string>>, observed: Option<set<string>>, strict: bool, dryRun: bool, ok: Call -> bool): (s: Sync)
    ensures desired.None? ==> s == Sync(None, None, [], None)
    ensures desired.Some? && observed.None? ==> s == Sync(None, None, [], Some(FetchError(kind)))
    ensures dryRun ==> s.calls == [] && (s.error.Some? ==> observed.None?)
    ensures forall c :: c in s.calls ==> On(kind, team)(c)
  {
    if desired.None? then Sync(None, None, [], None)
    else if observed.None? then Sync(None, None, [], Some(FetchError(kind)))
    else
      var p := SyncPass(kind, team, desired.value, observed.value, strict, dryRun, ok);
      CallsOfKind(kind, team);
      PassCallsAre(p, dryRun, AddCall(kind, team), RemoveCall(kind, team), On(kind, team));
      var error := match p.failure
        case None => None
        case Some(FailedAdd(x)) => Some(AddError(kind, x))
        case Some(FailedRemove(x)) => Some(RemoveError(kind, x));
      Sync(p.added, p.removed, PassCalls(p, dryRun, AddCall(kind, team), RemoveCall(kind, team)), error)
  }

  /** A step that runs records each item at most once and only if planned;
      a key exists only for a non-empty side of the plan; success records
      the whole plan. */
  lemma SyncRecordsPlan(kind: Kind, team: int, desired: seq<string>, observed: set<string>, strict: bool, dryRun: bool, ok: Call -> bool)
    ensures var s := SyncStep(kind, team, Some(desired), Some(observed), strict, dryRun, ok);
            var d := SetDiff(Elems(desired), observed, strict);
            && (s.added.Some? <==> d.toAdd != {})
            && (s.removed.Some? ==> d.toRemove != {})
            && NoDup(Ledger(s.added)) && Elems(Ledger(s.added)) <= d.toAdd
            && NoDup(Ledger(s.removed)) && Elems(Ledger(s.removed)) <= d.toRemove
            && (s.error.None? ==> (s.removed.Some? <==> d.toRemove != {}))
            && (s.error.None? ==> Elems(Ledger(s.added)) == d.toAdd && Elems(Ledger(s.removed)) == d.toRemove)
            && (dryRun ==> s.error.None?)
  {
    var s := SyncStep(kind, team, Some(desired), Some(observed), strict, dryRun, ok);
    var p := SyncPass(kind, team, desired, observed, strict, dryRun, ok);
    assert s.added == p.added && s.removed == p.removed && (s.error.None? <==> p.failure.None?);
  }

  /** A failed addition ends the step: its message names the item, no
      removal is recorded, and its call is the last one. */
  lemma SyncAddFailure(kind: Kind, team: int, desired: seq<string>, observed: set<string>, strict: bool, dryRun: bool, ok: Call -> bool)
    requires var s := SyncStep(kind, team, Some(desired), Some(observed), strict, dryRun, ok);
             s.error.Some? && s.removed.None?
    ensures var s := SyncStep(kind, team, Some(desired), Some(observed), strict, dryRun, ok);
            exists x :: && x in Elems(desired) - observed && x !in Ledger(s.added)
                        && !ok(AddCall(kind, team)(x))
                        && s.error == Some(AddError(kind, x))
                        && s.calls == MapSeq(AddCall(kind, team), Ledger(s.added)) + [AddCall(kind, team)(x)]
  {
    var p := SyncPass(kind, team, desired, observed, strict, dryRun, ok);
    assert p.failure.Some? && p.failure.value.FailedAdd?;
    var x := p.failure.value.item;
    assert !Through(ok, AddCall(kind, team))(x);
    FailedAddCalls(p, AddCall(kind, team), RemoveCall(kind, team));
  }

  /** A failed removal comes after every addition went through: its message
      names the item and its call is the last one. */
  lemma SyncRemoveFailure(kind: Kind, team: int, desired: seq<string>, observed: set<string>, strict: bool, dryRun: bool, ok: Call -> bool)
    requires var s := SyncStep(kind, team, Some(desired), Some(observed), strict, dryRun, ok);
             s.error.Some? && s.removed.Some?
    ensures var s := SyncStep(kind, team, Some(desired), Some(observed), strict, dryRun, ok);
            exists x :: && strict && x in observed - Elems(desired) && x !in Ledger(s.removed)
                        && !ok(RemoveCall(kind, team)(x))
                        && s.error == Some(RemoveError(kind, x))
                        && Elems(Ledger(s.added)) == Elems(desired) - observed
                        && s.calls == MapSeq(AddCall(kind, team), Ledger(s.added))
                                      + MapSeq(RemoveCall(kind, team), Ledger(s.removed))
                                      + [RemoveCall(kind, team)(x)]
  {
    var p := SyncPass(kind, team, desired, observed, strict, dryRun, ok);
    assert p.failure.Some? && p.failure.value.FailedRemove?;
    var x := p.failure.value.item;
    assert !Through(ok, RemoveCall(kind, team))(x);
    FailedRemoveCalls(p, AddCall(kind, team), RemoveCall(kind, team));
  }

  /** The ledger of a real step is exactly what changed in the collection. */
  lemma SyncEffect(kind: Kind, team: int, desired: seq<string>, observed: set<string>, strict: bool, ok: Call -> bool)
    ensures var s := SyncStep(kind, team, Some(desired), Some(observed), strict, false, ok);
            Effect(observed, s.calls, ok, Target(kind, team)) == observed + Elems(Ledger(s.added)) - Elems(Ledger(s.removed))
  {
    var d := SetDiff(Elems(desired), observed, strict);
    PassTruthful(d, AddCall(kind, team), RemoveCall(kind, team), ok);
    CallsOfKind(kind, team);
    PassEffect(observed, SyncPass(kind, team, desired, observed, strict, false, ok), AddCall(kind, team), RemoveCall(kind, team), ok, Target(kind, team));
  }

  /** The selected team: the first listed one with the requested name. */
  function Selected(req: Request, svc: Service): (t: Option<Team>)
    ensures t.Some? ==> t.value in svc.teams && t.value.name == req.name
    ensures t.None? ==> forall k :: 0 <= k < |svc.teams| ==> svc.teams[k].name != req.name
  {
    var i := FindTeam(svc.teams, req.name);
    if i.Some? then Some(svc.teams[i.value]) else None
  }

  function AddTeamCall(req: Request): Call
  {
    AddTeam(req.org, req.name, req.permission, req.repos)
  }

  /** The team is known: it was found by name or `gh_team.add` returned it. */
  predicate Known(req: Request, svc: Service)
  {
    Selected(req, svc).Some? || svc.created.Some?
  }

  /** The id every later call goes to: that of the first listed team with
      the requested name, or else that of the team `gh_team.add` returned. */
  function TeamId(req: Request, svc: Service): (id: int)
    requires Known(req, svc)
    ensures FindTeam(svc.teams, req.name).Some? ==> id == svc.teams[FindTeam(svc.teams, req.name).value].id
    ensures FindTeam(svc.teams, req.name).None? ==> id == svc.created.value.id
  {
    if Selected(req, svc).Some? then Selected(req, svc).value.id else svc.created.value.id
  }

  /** `present`. */
  ghost function Present(req: Request, svc: Service): (r: Run)
    // a missing team under dry run returns nothing and calls nothing
    ensures r.ret.None? <==> Selected(req, svc).None? && req.dryRun
    ensures r.ret.None? ==> r.calls == []
    ensures r.ret.Some? ==> r.ret.value.name == req.name
    // a failed creation is reported before any other step
    ensures Selected(req, svc).None? && !req.dryRun && svc.created.None? ==>
              r.ret.value == Ret(req.name, NoChanges, false, "Error adding GitHub team") && r.calls == [AddTeamCall(req)]
    // a missing team is created and recorded as `add`
    ensures r.ret.Some? ==>
              r.ret.value.changes.add == (if Selected(req, svc).None? && svc.created.Some? then Some(NewTeam(req.org, req.name, req.permission, req.repos)) else None)
    // dry run issues no call
    ensures req.dryRun ==> r.calls == []
  {
    if Selected(req, svc).None? && req.dryRun then Run(None, [])
    else if Selected(req, svc).None? && svc.created.None? then
      Run(Some(Ret(req.name, NoChanges, false, "Error adding GitHub team")), [AddTeamCall(req)])
    else if Selected(req, svc).None? then
      Configure(req, svc, Some(NewTeam(req.org, req.name, req.permission, req.repos)), [AddTeamCall(req)])
    else
      Configure(req, svc, None, [])
  }

  /** Whether the permission must be edited. */
  predicate NeedsEdit(req: Request, svc: Service)
    requires Known(req, svc)
  {
    req.permission.Some? && svc.permissionOf(TeamId(req, svc)) != req.permission.value
  }

  function EditCall(req: Request, svc: Service): Call
    requires Known(req, svc)
    requires req.permission.Some?
  {
    EditTeam(TeamId(req, svc), req.name, req.permission.value)
  }

  /** The steps after the team is known: permission, then collections. */
  ghost function Configure(req: Request, svc: Service, add: Option<NewTeam>, before: seq<Call>): (r: Run)
    requires Known(req, svc)
    ensures r.ret.Some? && r.ret.value.name == req.name && r.ret.value.changes.add == add
    ensures req.dryRun && before == [] ==> r.calls == []
  {
    if NeedsEdit(req, svc) && !req.dryRun && !svc.ok(EditCall(req, svc)) then
      Run(Some(Ret(req.name, NoChanges.(add := add), false, "Error editing permission")), before + [EditCall(req, svc)])
    else if NeedsEdit(req, svc) then
      Collections(req, svc, add, Some(Edit(TeamId(req, svc), req.name, req.permission.value)),
                  before + (if req.dryRun then [] else [EditCall(req, svc)]))
    else
      Collections(req, svc, add, None, before)
  }

  /** One collection step of `present`, on the known team. */
  ghost function Step(kind: Kind, req: Request, svc: Service): Sync
    requires Known(req, svc)
  {
    SyncStep(kind, TeamId(req, svc), Desired(req, kind), Observed(svc, kind), req.strict, req.dryRun, svc.ok)
  }

  /** Whether a collection step's calls all work on that collection of the
      known team. */
  lemma StepCallsOnly(kind: Kind, req: Request, svc: Service)
    requires Known(req, svc)
    ensures forall c :: c in Step(kind, req, svc).calls ==> KindOf(c) == Some(kind) && c.team == TeamId(req, svc)
  {
    var s := Step(kind, req, svc);
    forall c | c in s.calls ensures KindOf(c) == Some(kind) && c.team == TeamId(req, svc) {
      assert On(kind, TeamId(req, svc))(c);
    }
  }

  /** The calls of the collection steps: the member step's, then the repo
      step's unless the member step failed. */
  ghost function StepCalls(req: Request, svc: Service): (calls: seq<Call>)
    requires Known(req, svc)
    ensures forall c :: c in calls ==> KindOf(c).Some? && c.team == TeamId(req, svc)
  {
    var m := Step(Members, req, svc);
    StepCallsOnly(Members, req, svc);
    StepCallsOnly(Repos, req, svc);
    m.calls + (if m.error.Some? then [] else Step(Repos, req, svc).calls)
  }

  /** Each call of the collection steps on one collection comes from that
      collection's step. */
  lemma StepCallsOfKind(kind: Kind, req: Request, svc: Service)
    requires Known(req, svc)
    ensures forall c :: c in StepCalls(req, svc) && KindOf(c) == Some(kind) ==> c in Step(kind, req, svc).calls
  {
    StepCallsOnly(Members, req, svc);
    StepCallsOnly(Repos, req, svc);
  }

  /** The member step, then the repo step unless the member step failed. */
  ghost function Collections(req: Request, svc: Service, add: Option<NewTeam>, edit: Option<Edit>, before: seq<Call>): (r: Run)
    requires Known(req, svc)
    ensures r.ret.Some? && r.ret.value.name == req.name && r.ret.value.changes.add == add && r.ret.value.changes.edit == edit
    ensures req.dryRun && before == [] ==> r.calls == []
  {
    var m := Step(Members, req, svc);
    if m.error.Some? then
      Run(Some(Ret(req.name, Changes(add, edit, m.added, m.removed, None, None), false, m.error.value)), before + StepCalls(req, svc))
    else
      var p := Step(Repos, req, svc);
      Run(Some(Ret(req.name, Changes(add, edit, m.added, m.removed, p.added, p.removed), p.error.None?,
                   if p.error.Some? then p.error.value else "")),
          before + StepCalls(req, svc))
  }

  /** The run got past creation and the permission edit. */
  predicate PastEdit(req: Request, svc: Service)
  {
    && (Selected(req, svc).Some? || (!req.dryRun && svc.created.Some?))
    && !(NeedsEdit(req, svc) && !req.dryRun && !svc.ok(EditCall(req, svc)))
  }

  /** The calls issued before the collection steps. */
  function Head(req: Request, svc: Service): (h: seq<Call>)
    requires Known(req, svc)
    ensures forall c :: c in h ==> KindOf(c).None? && (c.AddTeam? || (c.EditTeam? && c.team == TeamId(req, svc)))
  {
    (if Selected(req, svc).None? then [AddTeamCall(req)] else [])
    + (if NeedsEdit(req, svc) && !req.dryRun then [EditCall(req, svc)] else [])
  }

  lemma CollectionsShape(req: Request, svc: Service, add: Option<NewTeam>, edit: Option<Edit>, before: seq<Call>)
    requires Known(req, svc)
    ensures var r := Collections(req, svc, add, edit, before);
            var m := Step(Members, req, svc);
            && r.calls == before + StepCalls(req, svc)
            && r.ret.value.changes.addMember == m.added && r.ret.value.changes.removeMember == m.removed
            && r.ret.value.changes.addRepo == (if m.error.Some? then None else Step(Repos, req, svc).added)
            && r.ret.value.changes.removeRepo == (if m.error.Some? then None else Step(Repos, req, svc).removed)
            && (r.ret.value.result <==> m.error.None? && Step(Repos, req, svc).error.None?)
            && (m.error.Some? ==> r.ret.value.comment == m.error.value)
            && (m.error.None? && Step(Repos, req, svc).error.Some? ==> r.ret.value.comment == Step(Repos, req, svc).error.value)
  {
  }

  /** The edit change and call a run past the edit makes. */
  function EditChange(req: Request, svc: Service): Option<Edit>
    requires Known(req, svc)
  {
    if NeedsEdit(req, svc) then Some(Edit(TeamId(req, svc), req.name, req.permission.value)) else None
  }

  lemma ConfigureShape(req: Request, svc: Service, add: Option<NewTeam>, before: seq<Call>)
    requires Known(req, svc)
    requires !(NeedsEdit(req, svc) && !req.dryRun && !svc.ok(EditCall(req, svc)))
    ensures Configure(req, svc, add, before)
              == Collections(req, svc, add, EditChange(req, svc),
                             before + (if NeedsEdit(req, svc) && !req.dryRun then [EditCall(req, svc)] else []))
  {
    if !NeedsEdit(req, svc) {
      assert before + [] == before;
    }
  }

  /** Past the edit, the calls are the head and then the collection steps'. */
  lemma PresentShape(req: Request, svc: Service)
    requires PastEdit(req, svc)
    ensures var r := Present(req, svc);
            var m := Step(Members, req, svc);
            && r.calls == Head(req, svc) + StepCalls(req, svc)
            && r.ret.value.changes.edit == EditChange(req, svc)
            && Added(r.ret.value.changes, Members) == m.added && Removed(r.ret.value.changes, Members) == m.removed
            && Added(r.ret.value.changes, Repos) == (if m.error.Some? then None else Step(Repos, req, svc).added)
            && Removed(r.ret.value.changes, Repos) == (if m.error.Some? then None else Step(Repos, req, svc).removed)
            && (r.ret.value.result <==> m.error.None? && Step(Repos, req, svc).error.None?)
            && (m.error.Some? ==> r.ret.value.comment == m.error.value)
            && (m.error.None? && Step(Repos, req, svc).error.Some? ==> r.ret.value.comment == Step(Repos, req, svc).error.value)
  {
    var pre := if Selected(req, svc).None? then [AddTeamCall(req)] else [];
    var add := if Selected(req, svc).None? then Some(NewTeam(req.org, req.name, req.permission, req.repos)) else None;
    var edit := if NeedsEdit(req, svc) && !req.dryRun then [EditCall(req, svc)] else [];
    assert Present(req, svc) == Configure(req, svc, add, pre);
    ConfigureShape(req, svc, add, pre);
    CollectionsShape(req, svc, add, EditChange(req, svc), pre + edit);
    assert pre + edit == Head(req, svc);
  }

  /** The permission is edited only when one is given and it differs from
      the team's; the edit is recorded before any collection step runs. */
  lemma PresentEdit(req: Request, svc: Service)
    requires PastEdit(req, svc)
    ensures var r := Present(req, svc);
            && (r.ret.value.changes.edit.Some? <==> req.permission.Some? && svc.permissionOf(TeamId(req, svc)) != req.permission.value)
            && (r.ret.value.changes.edit.Some? ==> r.ret.value.changes.edit.value == Edit(TeamId(req, svc), req.name, req.permission.value))
            && (forall c :: c in r.calls && c.EditTeam? ==> NeedsEdit(req, svc) && !req.dryRun && c == EditCall(req, svc))
  {
    PresentShape(req, svc);
    EditOnlyInHead(Present(req, svc).calls, Head(req, svc), StepCalls(req, svc), req, svc);
  }

  lemma EditOnlyInHead(calls: seq<Call>, head: seq<Call>, steps: seq<Call>, req: Request, svc: Service)
    requires Known(req, svc)
    requires calls == head + steps && head == Head(req, svc)
    requires forall c :: c in steps ==> KindOf(c).Some?
    ensures forall c :: c in calls && c.EditTeam? ==> NeedsEdit(req, svc) && !req.dryRun && c == EditCall(req, svc)
  {
    forall c | c in calls && c.EditTeam?
      ensures NeedsEdit(req, svc) && !req.dryRun && c == EditCall(req, svc)
    {
      assert c in head || c in steps;
    }
  }

  /** No call of the head or of the steps works on the collection. */
  lemma CallsAvoid(calls: seq<Call>, head: seq<Call>, steps: seq<Call>, kind: Kind)
    requires calls == head + steps
    requires forall c :: c in head ==> KindOf(c).None?
    requires forall c :: c in steps ==> KindOf(c) != Some(kind)
    ensures forall c :: c in calls ==> KindOf(c) != Some(kind)
  {
  }

  /** A failed edit ends the run before any collection step, with only the
      `add` change kept. */
  lemma PresentEditFailure(req: Request, svc: Service)
    requires Selected(req, svc).Some? || (!req.dryRun && svc.created.Some?)
    requires NeedsEdit(req, svc) && !req.dryRun && !svc.ok(EditCall(req, svc))
    ensures var r := Present(req, svc);
            && r.ret.value == Ret(req.name, NoChanges.(add := r.ret.value.changes.add), false, "Error editing permission")
            && r.calls == Head(req, svc)
  {
    var pre := if Selected(req, svc).None? then [AddTeamCall(req)] else [];
    var add := if Selected(req, svc).None? then Some(NewTeam(req.org, req.name, req.permission, req.repos)) else None;
    assert Present(req, svc) == Configure(req, svc, add, pre);
  }

  /** Every call but the creation goes to the team found by name or else
      created: the edit and each member and repo call carry its id. */
  lemma PresentTargetsTeam(req: Request, svc: Service)
    ensures forall c :: c in Present(req, svc).calls && !c.AddTeam? ==> Known(req, svc) && c.team == TeamId(req, svc)
  {
    if PastEdit(req, svc) {
      PresentShape(req, svc);
    } else if Selected(req, svc).Some? || (!req.dryRun && svc.created.Some?) {
      PresentEditFailure(req, svc);
    }
  }

  /** None for `members` (or `repos`) means unmanaged: nothing recorded,
      no call on that collection. */
  lemma PresentUnmanaged(kind: Kind, req: Request, svc: Service)
    requires Desired(req, kind).None?
    ensures var r := Present(req, svc);
            && (r.ret.Some? ==> Added(r.ret.value.changes, kind).None? && Removed(r.ret.value.changes, kind).None?)
            && (forall c :: c in r.calls ==> KindOf(c) != Some(kind))
  {
    if PastEdit(req, svc) {
      PresentShape(req, svc);
      StepCallsOfKind(kind, req, svc);
      assert Step(kind, req, svc).calls == [];
      CallsAvoid(Present(req, svc).calls, Head(req, svc), StepCalls(req, svc), kind);
    }
  }

  /** A listing that cannot be fetched fails the run with its message and
      nothing recorded for that collection; the repo step is never reached
      after a failed member step. */
  lemma PresentFetchFailure(kind: Kind, req: Request, svc: Service)
    requires PastEdit(req, svc) && Desired(req, kind).Some? && Observed(svc, kind).None?
    requires kind == Repos ==> Step(Members, req, svc).error.None?
    ensures var r := Present(req, svc);
            && !r.ret.value.result && r.ret.value.comment == FetchError(kind)
            && Added(r.ret.value.changes, kind).None? && Removed(r.ret.value.changes, kind).None?
            && Added(r.ret.value.changes, Repos).None? && Removed(r.ret.value.changes, Repos).None?
            && (forall c :: c in r.calls ==> KindOf(c) != Some(kind) && KindOf(c) != Some(Repos))
  {
    PresentShape(req, svc);
    var m := Step(Members, req, svc);
    assert Step(kind, req, svc) == Sync(None, None, [], Some(FetchError(kind)));
    var steps := StepCalls(req, svc);
    if kind == Members {
      assert steps == [];
    } else {
      assert steps == m.calls + [];
      StepCallsOnly(Members, req, svc);
    }
    CallsAvoid(Present(req, svc).calls, Head(req, svc), steps, kind);
    CallsAvoid(Present(req, svc).calls, Head(req, svc), steps, Repos);
  }

  /** A real run that succeeds converges on each managed collection: strict
      mode leaves exactly the desired items, lenient mode adds them. */
  lemma PresentConverges(kind: Kind, req: Request, svc: Service)
    requires !req.dryRun && Present(req, svc).ret.Some? && Present(req, svc).ret.value.result
    requires Desired(req, kind).Some?
    ensures Observed(svc, kind).Some?
    ensures var after := Effect(Observed(svc, kind).value, Present(req, svc).calls, svc.ok, Target(kind, TeamId(req, svc)));
            && (req.strict ==> after == Elems(Desired(req, kind).value))
            && (!req.strict ==> after == Observed(svc, kind).value + Elems(Desired(req, kind).value))
  {
    assert PastEdit(req, svc);
    PresentShape(req, svc);
    var id := TeamId(req, svc);
    var target := Target(kind, id);
    var m, p := Step(Members, req, svc), Step(Repos, req, svc);
    var obs := Observed(svc, kind).value;
    var desired := Desired(req, kind).value;
    StepCallsOnly(Members, req, svc);
    StepCallsOnly(Repos, req, svc);
    var mine, other := if kind == Members then m else p, if kind == Members then p else m;
    var s := SyncStep(kind, id, Some(desired), Some(obs), req.strict, false, svc.ok);
    assert mine == s;
    // only this collection's own calls act on it
    forall c | c in Head(req, svc) ensures target(c) == Untouched {
    }
    forall c | c in other.calls ensures target(c) == Untouched {
    }
    var head := Head(req, svc);
    assert StepCalls(req, svc) == m.calls + p.calls;
    EffectAppend(obs, head, m.calls + p.calls, svc.ok, target);
    EffectAppend(Effect(obs, head, svc.ok, target), m.calls, p.calls, svc.ok, target);
    EffectUntouched(obs, head, svc.ok, target);
    SyncEffect(kind, id, desired, obs, req.strict, svc.ok);
    SyncRecordsPlan(kind, id, desired, obs, req.strict, false, svc.ok);
    if kind == Members {
      EffectUntouched(Effect(obs, m.calls, svc.ok, target), p.calls, svc.ok, target);
    } else {
      EffectUntouched(obs, m.calls, svc.ok, target);
    }
    PlanConverges(Elems(desired), obs, req.strict);
  }

  /** `absent`: nothing is returned when no team has the name; otherwise
      the result is whether the removal went through (always under dry run). */
  function Absent(name: string, teams: seq<Team>, dryRun: bool, ok: Call -> bool): (r: Run)
    ensures FindTeam(teams, name).None? ==> r == Run(None, [])
    ensures FindTeam(teams, name).Some? ==>
              var id := teams[FindTeam(teams, name).value].id;
              && r.ret == Some(Ret(name, NoChanges, dryRun || ok(RemoveTeam(id)), ""))
              && r.calls == (if dryRun then [] else [RemoveTeam(id)])
  {
    var i := FindTeam(teams, name);
    if i.None? then Run(None, [])
    else
      var id := teams[i.value].id;
      Run(Some(Ret(name, NoChanges, dryRun || ok(RemoveTeam(id)), "")), if dryRun then [] else [RemoveTeam(id)])
  }

  /** How each call acts on the set of existing team ids. */
  function TeamTarget(c: Call): Op<int>
  {
    if c.RemoveTeam? then Erase(c.team) else Untouched
  }

  /** A success reported by a real `absent` means the team is gone. */
  lemma AbsentRemovesTeam(name: string, teams: seq<Team>, ok: Call -> bool, ids: set<int>)
    requires FindTeam(teams, name).Some?
    ensures var r := Absent(name, teams, false, ok);
            var id := teams[FindTeam(teams, name).value].id;
            r.ret.value.result ==> Effect(ids, r.calls, ok, TeamTarget) == ids - {id}
  {
    var id := teams[FindTeam(teams, name).value].id;
    assert Absent(name, teams, false, ok).calls == [RemoveTeam(id)];
    assert [RemoveTeam(id)][1..] == [];
  }
}
