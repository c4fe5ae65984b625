# Reconciling Salt states, modelled in Dafny

This project models the custom Salt *state* modules of an infrastructure
repository. Each state brings one remote resource to a declared shape:

- a GitHub team (`gh_team.present` / `gh_team.absent`);
- the webhooks of a GitHub repository (`gh_hooks.present`, with its
  `DictDiffer` helper);
- an AWS IAM group (`aws_iam_group.present` / `aws_iam_group.absent`);
- the collaborators of a Heroku app (`hk_collaborators.present`);
- an AWS IAM user (`aws_iam_user.present` / `aws_iam_user.absent`).

Every state follows the same scheme:

1. It reads what the service reports.
2. It computes the set difference between the declared and the observed
   identifiers. With `strict`, that includes the identifiers to remove.
3. It applies the operations one at a time, unless `dry_run` is set.
4. It returns a `ret` record `{name, changes, result, comment}`.

In most states the first failed call ends the run. The ledger in `changes`
then holds exactly the operations that went through.

How the pieces are modelled:

- **Dafny modules.** There is one module per state file: `GhTeam`,
  `GhHooks`, `AwsIamGroup`, `HkCollaborators` and `AwsIamUser`. `Common`
  holds the shared pieces: `Option`, the `Ret` record, the set difference
  `SetDiff`, the fail-fast batch runner `RunBatch`, the add-then-remove pass
  `AddThenRemove`, and the fold `Effect`.
- **What a state returns.** Each state is a pure function to a *run*. A run
  is the returned record plus the trace of mutating calls, in order. Where
  the Python returns `None` instead of `ret`, the record is an `Option`:
  - a team, group or user missing under dry run;
  - `absent` on a missing team or group.
- **The service.** The remote service is given to each state as data: the
  listings it returns, plus a failure oracle `ok: Call -> bool`. The oracle
  decides whether each mutating call gets the answer the code accepts: a
  truthy one, or for `gh_team.edit` and `aws_iam_user.create_user` one that
  is not `None`. The oracle answers identical calls alike.
- **Remote state after a run.** `Effect` folds the calls that went through
  over a set of identifiers: each call inserts one, erases one, or leaves
  the set alone. Convergence is stated as the value of this fold.
- **Iteration order.** Python set iteration order is unspecified.
  `Common.Enumerate` picks some duplicate-free enumeration of a set. Every
  property is proved from its contract alone, so each one holds for every
  iteration order. Two runs over equal sets use the same enumeration. The hooks state walks Python lists, in list order.
- **Order of the phases.**
  - The team, collaborator and group states add first and remove
    afterwards.
  - The hooks state removes first.
  - A failed hook edit is ignored: it is not recorded and the result stays
    true.
  - The IAM states never look at a call's response. The only exception is
    `create_user`.

The model keeps the code's behaviour where it returns `None`:
- Under dry run, `gh_team.present` on a missing team returns `None`
  (`salt/_states/gh_team.py:70`). The same holds for
  `aws_iam_group.present` on a missing group (`salt/_states/aws_iam_group.py:47`)
  and `aws_iam_user.present` on a missing user (`salt/_states/aws_iam_user.py:43`).
- In each case the `changes` the code wrote just before are discarded. The
  model returns nothing there, as the code does.

## Model

| member | source | states |
|---|---|---|
| Common.SetDiff | salt/_states/gh_team.py:96-99 | the additions are the desired items not observed; the removals are observed items not desired, and there are none without strict; under strict, applying both yields exactly the desired set |
| Common.PlanConverges | salt/_states/gh_team.py:96-99 | adding the planned additions and removing the planned removals leaves the desired set (strict) or the observed set plus the desired one (lenient) |
| Common.Enumerate | salt/_states/gh_team.py:102 | a set is iterated as some duplicate-free sequence holding exactly its elements |
| Common.RunBatch | salt/_states/gh_hooks.py:76-86 | a fail-fast walk over a list records a prefix of it whose calls all went through; on failure the failing item is the next one of the list and its call failed; dry run records the whole list |
| Common.BatchThrough | salt/_states/gh_hooks.py:79-82 | every item a batch records had its call go through, unless under dry run |
| Common.Phase | salt/_states/gh_team.py:100-108 | one phase over a planned set records each item at most once, only planned items, and only when its call went through; without failure it records the whole plan; a failing item is planned, unrecorded and its call failed |
| Common.AddThenRemove | salt/_states/gh_team.py:100-117 | additions then removals: a ledger key exists only for a non-empty side; a failed addition means no removal was tried; a failed removal comes after every addition went through; dry run never fails |
| Common.PassCalls | salt/_states/gh_team.py:100-117 | a real pass makes one call per recorded addition and removal plus the failing one, every recorded item has its call in the trace, and the failing call is the last; dry run calls nothing |
| Common.PassTruthful | salt/_states/gh_team.py:103-104 | every call of a real pass's ledger went through |
| Common.TruthfulWhenAllOk | salt/_states/gh_team.py:100-117 | a finished pass whose every call succeeded is truthful |
| Common.PassEffect | salt/_states/gh_team.py:100-117 | the remote set after a truthful pass is the observed set plus the recorded additions minus the recorded removals |
| Common.PassConverges | salt/_states/gh_team.py:96-117 | a real pass that did not fail leaves exactly the desired set (strict) or the observed set plus the desired one (lenient) |
| Common.PhaseAllOk | salt/_states/gh_team.py:103 | when every call would go through, a real phase records the same as a dry-run phase |
| Common.PassAllOk | salt/_states/gh_team.py:100-117 | when every call would go through, a real pass records the same as a dry-run pass |
| Common.PassIdempotent | salt/_states/gh_team.py:96-117 | once the remote set matches the declaration, the plan is empty and a pass records nothing and fails nothing |
| GhTeam.FindTeam | salt/_states/gh_team.py:65 | the position found is that of the first listed team with the requested name; no position means no team has it |
| GhTeam.Selected | salt/_states/gh_team.py:64-66 | the team selected is a listed team with the requested name; none selected means none is listed |
| GhTeam.TeamId | salt/_states/gh_team.py:64-78 | the team the run works on is the first listed team with the requested name, or the created team when none is listed |
| GhTeam.CallsOfKind | salt/_states/gh_team.py:103 | the add and remove calls of a collection work on that collection of that team, inserting and erasing the item |
| GhTeam.Observed | salt/_states/gh_team.py:96 | the observed members are the `login`s of the listing and the observed repos the `full_name`s; a failed fetch observes nothing |
| GhTeam.SyncStep | salt/_states/gh_team.py:90-117 | an unmanaged collection is left alone; a failed fetch fails with "Error fetching …" and no call; dry run issues no call; every call is on that collection |
| GhTeam.SyncRecordsPlan | salt/_states/gh_team.py:96-117 | the added and removed ledgers hold distinct planned items, and all of them when the step did not fail; keys appear only for non-empty sides |
| GhTeam.SyncAddFailure | salt/_states/gh_team.py:100-108 | a failed addition names an unobserved desired item that is unrecorded, whose call failed and ends the trace |
| GhTeam.SyncRemoveFailure | salt/_states/gh_team.py:109-117 | a failed removal happens only under strict, after every addition, and names an undesired observed item whose call failed and ends the trace |
| GhTeam.SyncEffect | salt/_states/gh_team.py:100-117 | after a real step the collection holds what was observed, plus its added ledger, minus its removed ledger |
| GhTeam.Present | salt/_states/gh_team.py:60-149 | a missing team under dry run returns nothing and calls nothing; a failed creation returns "Error adding GitHub team" after its one call; `add` is recorded exactly when a team was created; dry run calls nothing |
| GhTeam.Configure | salt/_states/gh_team.py:81-87 | the permission step keeps the name and the `add` change, and calls nothing under dry run |
| GhTeam.Head | salt/_states/gh_team.py:71-82 | the calls before the collection steps are the creation and an edit carrying the team's id; they touch no collection |
| GhTeam.StepCalls | salt/_states/gh_team.py:89-147 | every call of the member and repo steps is on a collection of the team found or created |
| GhTeam.Collections | salt/_states/gh_team.py:89-149 | the collection steps keep the name and the `add` and `edit` changes, and call nothing under dry run |
| GhTeam.PresentEdit | salt/_states/gh_team.py:81-83 | `edit` is recorded exactly when a permission is given and differs from the team's; the only edit call is that one, and never under dry run |
| GhTeam.PresentEditFailure | salt/_states/gh_team.py:84-87 | a failed edit returns "Error editing permission" with only `add` kept and no collection call |
| GhTeam.PresentTargetsTeam | salt/_states/gh_team.py:78-142 | every call except the creation carries the id of the team found or created |
| GhTeam.PresentUnmanaged | salt/_states/gh_team.py:90 | with `members` (or `repos`) None nothing is recorded for that collection and no call works on it |
| GhTeam.PresentFetchFailure | salt/_states/gh_team.py:91-95 | a failed listing fails the run with its message, nothing recorded, and no call on that collection or on the repos |
| GhTeam.PresentConverges | salt/_states/gh_team.py:96-147 | a real successful run leaves each managed collection exactly as declared (strict) or with the declared items added (lenient) |
| GhTeam.Absent | salt/_states/gh_team.py:171-177 | a team not listed returns nothing; otherwise the result is `dry_run` or the outcome of the one removal call on the first listed team's id |
| GhTeam.AbsentRemovesTeam | salt/_states/gh_team.py:176 | a successful real `absent` erases that team's id from the remote teams |
| GhHooks.DictDiffer | salt/_states/gh_hooks.py:25-44 | added keys are only in the current dict, removed only in the past one; changed and unchanged are the shared keys with differing and equal values |
| GhHooks.DictDifferPartition | salt/_states/gh_hooks.py:33-44 | the four sets are pairwise disjoint and cover both key sets; changed and unchanged partition the shared keys |
| GhHooks.DictDifferDetects | salt/_states/gh_hooks.py:105-106 | some key is added, removed or changed exactly when the two dicts differ |
| GhHooks.FindHook | salt/_states/gh_hooks.py:90 | a hook found is an existing hook with that name; none found means no existing hook has it |
| GhHooks.FindHookFirst | salt/_states/gh_hooks.py:90 | the hook found is the first existing hook with the name: no hook listed before it has that name |
| GhHooks.Unmatched | salt/_states/gh_hooks.py:76-78 | the hooks kept for removal are exactly the existing hooks no specified hook names |
| GhHooks.UnmatchedInOrder | salt/_states/gh_hooks.py:76-78 | the hooks kept for removal appear in the order of the listing |
| GhHooks.MakePatch | salt/_states/gh_hooks.py:104-111 | the patch carries the specified config iff the configs differ, `active` iff it differs, and the events iff the event sets differ |
| GhHooks.PatchReconciles | salt/_states/gh_hooks.py:104-113 | applying the patch makes the hook agree with its spec, keeping id and name; the patch is empty exactly when the hook already agrees |
| GhHooks.ActionFor | salt/_states/gh_hooks.py:90-113 | a spec with no existing hook is created; an agreeing hook is left alone; otherwise a non-empty patch targeting that hook's id makes it agree |
| GhHooks.CreateActions | salt/_states/gh_hooks.py:91 | the specs created are exactly the specified ones with no existing hook of that name |
| GhHooks.EditActions | salt/_states/gh_hooks.py:104-113 | every edit carries a non-empty patch for the existing hook of a specified name, which the patch makes agree |
| GhHooks.Actions | salt/_states/gh_hooks.py:89-90 | there is one action per specified hook |
| GhHooks.ActionAt | salt/_states/gh_hooks.py:89-113 | the action at each position is the one decided for the hook specified there, against the listing taken before any call |
| GhHooks.WalkSpecs | salt/_states/gh_hooks.py:89-117 | the walk over the specified hooks calls nothing and cannot fail under dry run |
| GhHooks.WalkEdits | salt/_states/gh_hooks.py:114-117 | recorded patches and edit calls come from edit actions; the walk never removes a hook |
| GhHooks.WalkAdditions | salt/_states/gh_hooks.py:91-98 | every recorded addition is a creation, and a walk that did not fail recorded every creation |
| GhHooks.Missing | salt/_states/gh_hooks.py:89-91 | the hooks to create are exactly the specified hooks with no existing hook of their name |
| GhHooks.MissingInOrder | salt/_states/gh_hooks.py:89-91 | the hooks to create appear in the order they are specified |
| GhHooks.MissingAt | salt/_states/gh_hooks.py:89-91 | every hook to create is a specified hook with no existing hook of its name |
| GhHooks.Creations | salt/_states/gh_hooks.py:89-91 | the specs the creation actions carry are exactly those of the creation actions |
| GhHooks.CreationsAreMissing | salt/_states/gh_hooks.py:89-91 | the creation actions carry, in order, exactly the hooks to create |
| GhHooks.WalkCreations | salt/_states/gh_hooks.py:89-102 | the walk records, in order, the creations before the first failing one, all of them when none fails, and a failing creation is the next one after those recorded |
| GhHooks.WalkFailure | salt/_states/gh_hooks.py:99-102 | only a creation fails the walk; its call failed and is the last call |
| GhHooks.WalkRecords | salt/_states/gh_hooks.py:114-117 | every addition and every edit whose call went through is recorded |
| GhHooks.WalkTruthful | salt/_states/gh_hooks.py:92-98 | every recorded addition and patch has its call in the trace, and that call went through |
| GhHooks.KeptPatches | salt/_states/gh_hooks.py:114-117 | the patches kept are at most one per action, each paired with the repository name |
| GhHooks.KeptOnDryRun | salt/_states/gh_hooks.py:114-117 | under dry run every edit action's patch is kept |
| GhHooks.WalkPatches | salt/_states/gh_hooks.py:104-117 | the walk records, in order, a prefix of the kept patches (edit actions that are dry run or whose call went through), and all of them when no addition failed |
| GhHooks.Removed | salt/_states/gh_hooks.py:80-82 | the `remove` key appears only with a non-empty list of the removed hooks |
| GhHooks.RemovalCalls | salt/_states/gh_hooks.py:79 | the removal pass issues only removals, and none under dry run |
| GhHooks.Stopped | salt/_states/gh_hooks.py:83-86 | a failed removal returns false with the hook in the comment, only the removals recorded, and its removal call last |
| GhHooks.Removal | salt/_states/gh_hooks.py:75-86 | the removal pass removes nothing and cannot fail without strict; it records a prefix of the unmatched hooks; a failure happens only under strict and not dry run, on a hook whose removal call failed |
| GhHooks.Finish | salt/_states/gh_hooks.py:88-119 | past the removals, `add` and `patch` hold the walk's ledgers, the result is false exactly when an addition failed, and the walk's calls follow the removals |
| GhHooks.Present | salt/_states/gh_hooks.py:46-119 | the result is true exactly when there is no comment; `remove` appears only non-empty; dry run calls nothing and succeeds |
| GhHooks.PresentLenient | salt/_states/gh_hooks.py:75 | without strict nothing is removed or asked to be removed |
| GhHooks.RemovalDone | salt/_states/gh_hooks.py:75-82 | the pass removes, in list order, a prefix of the unmatched hooks whose calls went through, and all of them when it did not fail |
| GhHooks.PresentRemovals | salt/_states/gh_hooks.py:75-82 | the removed hooks are a prefix of the unmatched existing ones, each removal went through, and strict mode without a removal error removed them all |
| GhHooks.PresentRemoveFailure | salt/_states/gh_hooks.py:83-86 | a removal error happens only under strict and not dry run, names the next unmatched hook whose removal failed, and precedes any addition or patch |
| GhHooks.PresentAdditions | salt/_states/gh_hooks.py:91-98 | every recorded addition is a specified hook that did not exist; a successful run added every such hook |
| GhHooks.PresentCreations | salt/_states/gh_hooks.py:89-102 | `add` holds, in list order, the specified hooks that did not exist up to the first failed creation; that one is the next such hook; a successful run records them all |
| GhHooks.PresentAddFailure | salt/_states/gh_hooks.py:99-102 | an addition error names a specified, non-existing hook whose add call failed and is the last call |
| GhHooks.PresentPatchTargets | salt/_states/gh_hooks.py:114 | each edit call targets the existing hook of a specified name with a non-empty patch that makes it agree |
| GhHooks.PresentPatches | salt/_states/gh_hooks.py:112-117 | a recorded patch is never empty; an edit that went through is recorded; a failed edit does not turn the result false |
| GhHooks.PresentPatchLedger | salt/_states/gh_hooks.py:89-117 | the `patch` ledger is a prefix of the kept patches, and exactly them when the result is true |
| GhHooks.PresentDryRunPatches | salt/_states/gh_hooks.py:104-117 | a dry run records the patch of every specified hook that exists and does not agree with its spec |
| GhHooks.PresentTruthful | salt/_states/gh_hooks.py:92-117 | each recorded addition and patch has its call in the trace, and that call went through |
| HkCollaborators.Emails | salt/_states/hk_collaborators.py:46 | the observed set is exactly the collaborators' `user.email` values |
| HkCollaborators.Plan | salt/_states/hk_collaborators.py:47-49 | the e-mails to add are the declared ones not observed; those to remove are the observed ones not declared under strict, none otherwise |
| HkCollaborators.Present | salt/_states/hk_collaborators.py:39-69 | `add_member` appears exactly when there is something to add; success records the whole plan with no comment; dry run calls nothing and succeeds |
| HkCollaborators.PresentLedger | salt/_states/hk_collaborators.py:50-67 | each ledger holds distinct planned e-mails whose calls went through |
| HkCollaborators.PresentTrace | salt/_states/hk_collaborators.py:50-67 | a successful real run issues exactly its recorded creations, then its recorded deletions |
| HkCollaborators.PresentAddFailure | salt/_states/hk_collaborators.py:55-58 | a failed addition names a planned, unrecorded e-mail whose creation failed and ends the trace |
| HkCollaborators.PresentRemoveFailure | salt/_states/hk_collaborators.py:64-67 | a failed removal comes after every addition and names a planned, unrecorded e-mail whose deletion failed and ends the trace |
| HkCollaborators.PresentEffect | salt/_states/hk_collaborators.py:50-67 | after a real run the collaborators are the observed ones plus the recorded additions minus the recorded removals |
| HkCollaborators.PresentConverges | salt/_states/hk_collaborators.py:47-67 | a successful real run leaves exactly the declared e-mails (strict) or the observed plus the declared (lenient) |
| HkCollaborators.PresentIdempotent | salt/_states/hk_collaborators.py:47-49 | run again on the state a successful run left, `present` changes nothing and calls nothing |
| AwsIamGroup.UserNames | salt/_states/aws_iam_group.py:56 | the observed members are exactly the `UserName`s of the group's users |
| AwsIamGroup.Plan | salt/_states/aws_iam_group.py:56-59 | the users to add are the listed ones not in the group; those to remove are the group's members not listed under strict, none otherwise |
| AwsIamGroup.Pairs | salt/_states/aws_iam_group.py:63 | each recorded entry pairs the user with the group name, in ledger order |
| AwsIamGroup.PassOf | salt/_states/aws_iam_group.py:60-71 | the membership pass never fails, since no response is checked |
| AwsIamGroup.Reconcile | salt/_states/aws_iam_group.py:55-73 | reconciling an existing group succeeds with no comment, never creates or deletes a group, and calls nothing under dry run |
| AwsIamGroup.Present | salt/_states/aws_iam_group.py:42-73 | a missing group under dry run returns nothing; otherwise it is created, then every listed member is added in list order; members None leaves an existing group unchanged; dry run calls nothing |
| AwsIamGroup.PresentRecordsPlan | salt/_states/aws_iam_group.py:56-69 | the recorded additions are exactly the listed users not in the group, and the removals exactly the unlisted members under strict, none otherwise |
| AwsIamGroup.PresentCallsRecorded | salt/_states/aws_iam_group.py:64-71 | a real run issues exactly the recorded additions, then the recorded removals |
| AwsIamGroup.DryRunRecordsAlike | salt/_states/aws_iam_group.py:64-71 | dry run records the very changes a real run records |
| AwsIamGroup.PresentConverges | salt/_states/aws_iam_group.py:55-71 | when every call goes through, the members become the listed ones (strict) or the current ones plus the listed (lenient) |
| AwsIamGroup.CreateConverges | salt/_states/aws_iam_group.py:48-51 | a created group whose calls all go through ends with exactly the listed members |
| AwsIamGroup.PresentCreatesGroup | salt/_states/aws_iam_group.py:48 | a created group whose calls all go through exists afterwards |
| AwsIamGroup.Absent | salt/_states/aws_iam_group.py:90-96 | a missing group returns nothing; an existing one returns success with no changes, and its one delete call is issued exactly when not under dry run |
| AwsIamGroup.AbsentRemovesGroup | salt/_states/aws_iam_group.py:94-95 | a real `absent` on an existing group whose delete goes through erases exactly that group |
| AwsIamUser.Present | salt/_states/aws_iam_user.py:38-57 | a missing user under dry run returns nothing; a failed creation returns "Error creating user"; `create_user` is recorded exactly for a created user; a key is planned exactly when asked for and the user has none |
| AwsIamUser.KeyIds | salt/_states/aws_iam_user.py:82 | the recorded ids are the keys' `AccessKeyId`s in list order |
| AwsIamUser.PresentLeavesUserWithKey | salt/_states/aws_iam_user.py:38-55 | a successful real run whose calls go through leaves the user in place, with a key when one was asked for and returned |
| AwsIamUser.Absent | salt/_states/aws_iam_user.py:74-89 | a missing user returns success with no changes; otherwise every key id is recorded in list order, the user last, and each key deletion precedes the user deletion |
| AwsIamUser.AbsentDryRunRecordsAlike | salt/_states/aws_iam_user.py:83-88 | dry run records the very changes a real run records |
| AwsIamUser.AbsentRemovesUser | salt/_states/aws_iam_user.py:78-88 | when its calls go through, `absent` leaves the user with no access key, then erases the user |

## Left out

- The `salt/_modules` wrappers (HTTP and awscli calls, request building, paging, status-code mapping) are not part of this model. Their answers are inputs: listings, the `created`/`newKey` responses and the oracle `ok`.
- API tokens, logging and Salt's `__salt__` dispatch are left out; they do not affect what is reconciled.
- Exceptions are left out. A `CommandExecutionError` from the Heroku module is modelled, at most, as a failed call.
- Python crash paths are excluded by preconditions or not modelled. Examples: iterating `members=None` when creating an IAM group, a `None` key listing in `aws_iam_user.present` (`len(keys)`) and in `aws_iam_user.absent`, a non-list team listing. The key listing is a sequence in the model, so it is never `None`.
- Read calls (`list`, `get`, `list_members`, `list_repos`, `get_group`, `get_user`, `list_access_keys`) are not in the call trace. The trace holds only mutating calls.
- The oracle `ok` is a function of the call, so two identical calls get the same answer. A hook specified twice with no existing hook makes two identical `add` calls, whose outcomes the service could in fact make differ; the model does not cover that.
- GhTeam.TeamId, GhTeam.PresentTargetsTeam: `gh_team.get` is modelled by `Service.permissionOf`: the permission it reports for a team id. The model assumes the team it returns carries the id it was asked for. The code goes on with the returned team's `id` for the edit and for every member and repo call, so a `get` that answered with another id is not modelled. Its failure is a crash and is not modelled.
- GhHooks.Stopped: the comment holds the hook itself rather than Python's `repr` of the dict formatted into "Error removing hook: …". The same holds for "Error adding hook: …".
- Hook configs are maps from strings to strings. Nested config values and hook fields other than `name`, `config`, `events` and `active` are left out.
- The order in which Python iterates a set is left abstract. Every property holds for any order, and the comparisons of two runs below assume both use the same one.
- Common.PhaseAllOk, Common.PassAllOk, AwsIamGroup.DryRunRecordsAlike: these compare the ledgers of two runs over the same set as sequences. That relies on both runs iterating the set alike, which holds because `Common.Enumerate` is one fixed function of the set; Python iterates two equal sets of strings built alike in one interpreter in the same order.
- GhTeam.Absent: `result` is a boolean. The Python value is `dry_run or` the wrapper's raw response, which need not be a boolean.
- AwsIamUser.Present: the `create_access_key` change holds the response as an optional key. Its other fields are not modelled.
- Under dry run, the planned `add` / `create_group` / `create_user` change on a missing resource is discarded, because the code returns `None` there.
