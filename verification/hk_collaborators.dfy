/**
 The Heroku collaborators state: make the set of collaborator e-mails of an
 app match the declared members, adding the missing ones first and, under
 strict mode, removing the undeclared ones afterwards.
 */
module HkCollaborators {
  import opened Common

  /** One entry of the app's collaborator listing, `{"user": {"email": ...}}`. */
  datatype User = User(email: string)
  datatype Collaborator = Collaborator(user: User)

  /** The arguments of `present` (the API token is left out). */
  datatype Request = Request(app: string, members: seq<string>, strict: bool, dryRun: bool)

  /** The mutating calls into the Heroku collaborator API. */
  datatype Call = Create(app: string, email: string) | Delete(app: string, email: string)

  /** The `add_member` and `remove_member` entries of `changes`. */
  datatype Changes = Changes(addMember: Option<seq<string>>, removeMember: Option<seq<string>>)

  /** The returned record together with the calls issued, in order. */
  datatype Run = Run(ret: Ret<Changes, string>, calls: seq<Call>)

  /** The observed collaborators: the e-mails of the listing. */
  function Emails(listing: seq<Collaborator>): (r: set<string>)
    ensures forall e :: e in r <==> exists k :: 0 <= k < |listing| && listing[k].user.email == e
  {
    set c | c in listing :: c.user.email
  }

  function Plan(req: Request, listing: seq<Collaborator>): (d: Diff<string>)
    ensures d.toAdd == Elems(req.members) - Emails(listing)
    ensures d.toRemove == if req.strict then Emails(listing) - Elems(req.members) else {}
  {
    SetDiff(Elems(req.members), Emails(listing), req.strict)
  }

  function CreateOn(app: string): string -> Call
  {
    e => Create(app, e)
  }

  function DeleteOn(app: string): string -> Call
  {
    e => Delete(app, e)
  }

  /** How each call acts on the collaborator set of `app`. */
  function Target(app: string): Call -> Op<string>
  {
    (c: Call) => match c
         case Create(a, e) => if a == app then Insert(e) else Untouched
         case Delete(a, e) => if a == app then Erase(e) else Untouched
  }

  function FailComment(f: Failed<string>): string
  {
    match f
    case FailedAdd(e) => "Error adding " + e + " to team"
    case FailedRemove(e) => "Error removing " + e + " from team"
  }

  ghost function PassOf(req: Request, listing: seq<Collaborator>, ok: Call -> bool): Pass<string>
  {
    AddThenRemove(Plan(req, listing), req.dryRun, Through(ok, CreateOn(req.app)), Through(ok, DeleteOn(req.app)))
  }

  /** `present`: one add-then-remove pass over the collaborator e-mails.
      `ok` says whether a create or delete call gets a truthy response. */
  ghost function Present(req: Request, listing: seq<Collaborator>, ok: Call -> bool): (r: Run)
    ensures r.ret.name == req.app
    // a key exists only for a non-empty side of the plan
    ensures r.ret.changes.addMember.Some? <==> Plan(req, listing).toAdd != {}
    ensures r.ret.changes.removeMember.Some? ==> Plan(req, listing).toRemove != {}
    ensures r.ret.result ==> (r.ret.changes.removeMember.Some? <==> Plan(req, listing).toRemove != {})
    // success records the whole plan and leaves the comment empty
    ensures r.ret.result ==>
              && Elems(Ledger(r.ret.changes.addMember)) == Plan(req, listing).toAdd
              && Elems(Ledger(r.ret.changes.removeMember)) == Plan(req, listing).toRemove
              && r.ret.comment == ""
    // dry run calls nothing and cannot fail
    ensures req.dryRun ==> r.calls == [] && r.ret.result
  {
    var p := PassOf(req, listing, ok);
    var comment := if p.failure.Some? then FailComment(p.failure.value) else "";
    Run(Ret(req.app, Changes(p.added, p.removed), p.failure.None?, comment),
        PassCalls(p, req.dryRun, CreateOn(req.app), DeleteOn(req.app)))
  }

  /** Each member is recorded at most once, only if planned, and only when
      its call went through. */
  lemma PresentLedger(req: Request, listing: seq<Collaborator>, ok: Call -> bool)
    ensures var c := Present(req, listing, ok).ret.changes;
            && NoDup(Ledger(c.addMember)) && Elems(Ledger(c.addMember)) <= Plan(req, listing).toAdd
            && NoDup(Ledger(c.removeMember)) && Elems(Ledger(c.removeMember)) <= Plan(req, listing).toRemove
            && (forall e :: e in Ledger(c.addMember) ==> req.dryRun || ok(Create(req.app, e)))
            && (forall e :: e in Ledger(c.removeMember) ==> req.dryRun || ok(Delete(req.app, e)))
  {
    var p := PassOf(req, listing, ok);
    forall e | e in Ledger(p.added) ensures req.dryRun || ok(Create(req.app, e)) {
      assert req.dryRun || Through(ok, CreateOn(req.app))(e);
    }
    forall e | e in Ledger(p.removed) ensures req.dryRun || ok(Delete(req.app, e)) {
      assert req.dryRun || Through(ok, DeleteOn(req.app))(e);
    }
  }

  /** Without dry run a successful run calls the recorded members, every
      create before any delete, and nothing else. */
  lemma PresentTrace(req: Request, listing: seq<Collaborator>, ok: Call -> bool)
    requires !req.dryRun && Present(req, listing, ok).ret.result
    ensures var r := Present(req, listing, ok);
            r.calls == MapSeq(CreateOn(req.app), Ledger(r.ret.changes.addMember))
                       + MapSeq(DeleteOn(req.app), Ledger(r.ret.changes.removeMember))
  {
    FinishedCalls(PassOf(req, listing, ok), CreateOn(req.app), DeleteOn(req.app));
  }

  /** A failed create stops the run at once: the comment names the member,
      no removal is recorded, and the failing create is the last call. */
  lemma PresentAddFailure(req: Request, listing: seq<Collaborator>, ok: Call -> bool)
    requires var r := Present(req, listing, ok); !r.ret.result && r.ret.changes.removeMember.None?
    ensures var r := Present(req, listing, ok);
            exists e :: && e in Plan(req, listing).toAdd && e !in Ledger(r.ret.changes.addMember)
                        && !ok(Create(req.app, e))
                        && r.ret.comment == "Error adding " + e + " to team"
                        && r.calls == MapSeq(CreateOn(req.app), Ledger(r.ret.changes.addMember)) + [Create(req.app, e)]
  {
    var r := Present(req, listing, ok);
    var p := PassOf(req, listing, ok);
    assert r.ret.changes == Changes(p.added, p.removed);
    assert p.failure.Some? && p.failure.value.FailedAdd?;
    var e := p.failure.value.item;
    assert !Through(ok, CreateOn(req.app))(e);
    FailedAddCalls(p, CreateOn(req.app), DeleteOn(req.app));
    assert r.ret.comment == "Error adding " + e + " to team";
    assert r.calls == MapSeq(CreateOn(req.app), Ledger(p.added)) + [Create(req.app, e)];
  }

  /** A failed delete comes after every create went through: the comment
      names the member and the failing delete is the last call. */
  lemma PresentRemoveFailure(req: Request, listing: seq<Collaborator>, ok: Call -> bool)
    requires var r := Present(req, listing, ok); !r.ret.result && r.ret.changes.removeMember.Some?
    ensures var r := Present(req, listing, ok);
            exists e :: && e in Plan(req, listing).toRemove && e !in Ledger(r.ret.changes.removeMember)
                        && !ok(Delete(req.app, e))
                        && r.ret.comment == "Error removing " + e + " from team"
                        && Elems(Ledger(r.ret.changes.addMember)) == Plan(req, listing).toAdd
                        && r.calls == MapSeq(CreateOn(req.app), Ledger(r.ret.changes.addMember))
                                      + MapSeq(DeleteOn(req.app), Ledger(r.ret.changes.removeMember))
                                      + [Delete(req.app, e)]
  {
    var r := Present(req, listing, ok);
    var p := PassOf(req, listing, ok);
    assert r.ret.changes == Changes(p.added, p.removed);
    assert p.failure.Some? && p.failure.value.FailedRemove?;
    var e := p.failure.value.item;
    assert !Through(ok, DeleteOn(req.app))(e);
    FailedRemoveCalls(p, CreateOn(req.app), DeleteOn(req.app));
    assert r.ret.comment == "Error removing " + e + " from team";
  }

  /** A run reports its one pass: the pass's ledgers, and its calls. */
  lemma PresentIsPass(req: Request, listing: seq<Collaborator>, ok: Call -> bool)
    ensures var r := Present(req, listing, ok);
            var p := PassOf(req, listing, ok);
            && r.ret.changes == Changes(p.added, p.removed)
            && r.calls == PassCalls(p, req.dryRun, CreateOn(req.app), DeleteOn(req.app))
  {
  }

  /** The ledger is truthful: after the calls, the app's collaborators are
      the observed ones plus the recorded additions minus the recorded
      removals, whether the run failed or not. */
  lemma PresentEffect(req: Request, listing: seq<Collaborator>, ok: Call -> bool)
    requires !req.dryRun
    ensures var r := Present(req, listing, ok);
            Effect(Emails(listing), r.calls, ok, Target(req.app))
              == Emails(listing) + Elems(Ledger(r.ret.changes.addMember)) - Elems(Ledger(r.ret.changes.removeMember))
  {
    PresentIsPass(req, listing, ok);
    RealPassEffect(Emails(listing), Plan(req, listing), CreateOn(req.app), DeleteOn(req.app), ok, Target(req.app));
  }

  /** A successful run converges: strict mode leaves exactly the declared
      members, lenient mode adds them to the existing ones. */
  lemma PresentConverges(req: Request, listing: seq<Collaborator>, ok: Call -> bool)
    requires !req.dryRun && Present(req, listing, ok).ret.result
    ensures var after := Effect(Emails(listing), Present(req, listing, ok).calls, ok, Target(req.app));
            && (req.strict ==> after == Elems(req.members))
            && (!req.strict ==> after == Emails(listing) + Elems(req.members))
  {
    PassConverges(Elems(req.members), Emails(listing), req.strict, CreateOn(req.app), DeleteOn(req.app), ok, Target(req.app));
  }

  /** Running `present` again on the state a successful run left behind
      changes nothing: no key in `changes`, no call, success. */
  lemma PresentIdempotent(req: Request, listing: seq<Collaborator>, ok: Call -> bool, listing': seq<Collaborator>, ok': Call -> bool)
    requires !req.dryRun && Present(req, listing, ok).ret.result
    requires Emails(listing') == Effect(Emails(listing), Present(req, listing, ok).calls, ok, Target(req.app))
    ensures Present(req, listing', ok') == Run(Ret(req.app, Changes(None, None), true, ""), [])
  {
    PresentConverges(req, listing, ok);
    PassIdempotent(Elems(req.members), Emails(listing'), req.strict, false,
                   Through(ok', CreateOn(req.app)), Through(ok', DeleteOn(req.app)));
  }
}
