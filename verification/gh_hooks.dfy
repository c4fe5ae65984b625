/**
 The GitHub repo hooks state: under strict mode remove the existing hooks no
 specified hook names, then add each specified hook that does not exist and
 patch each one that does with the smallest patch that makes it agree.
 Unlike the other states, removals come first, and both walks follow list
 order.
 */
module GhHooks {
  import opened Common

  /** `DictDiffer(current, past)` over string-keyed dicts: keys only in
      `current`, keys only in `past`, and the shared keys split by whether
      their values differ. */
  datatype DictDiff = DictDiff(added: set<string>, removed: set<string>, changed: set<string>, same: set<string>)

  function DictDiffer<V(==)>(current: map<string, V>, past: map<string, V>): (d: DictDiff)
    ensures d.added == current.Keys - past.Keys
    ensures d.removed == past.Keys - current.Keys
    ensures forall k :: k in d.changed <==> k in current && k in past && current[k] != past[k]
    ensures forall k :: k in d.same <==> k in current && k in past && current[k] == past[k]
  {
    var intersect := current.Keys * past.Keys;
    DictDiff(current.Keys - intersect, past.Keys - intersect,
             set o | o in intersect && past[o] != current[o],
             set o | o in intersect && past[o] == current[o])
  }

  /** The four sets are pairwise disjoint and together cover every key. */
  lemma DictDifferPartition<V>(current: map<string, V>, past: map<string, V>)
    ensures var d := DictDiffer(current, past);
            && d.added !! d.removed && d.added !! d.changed && d.added !! d.same
            && d.removed !! d.changed && d.removed !! d.same && d.changed !! d.same
            && d.added + d.removed + d.changed + d.same == current.Keys + past.Keys
            && d.changed + d.same == current.Keys * past.Keys
  {
  }

  /** Something is added, removed or changed exactly when the dicts differ. */
  lemma DictDifferDetects<V>(current: map<string, V>, past: map<string, V>)
    ensures var d := DictDiffer(current, past);
            d.added != {} || d.removed != {} || d.changed != {} <==> current != past
  {
    var d := DictDiffer(current, past);
    if d.added == {} && d.removed == {} && d.changed == {} {
      assert current.Keys == past.Keys;
      forall k | k in current ensures current[k] == past[k] {
        assert k !in d.changed;
      }
    } else if d.added != {} {
      var k :| k in d.added;
    } else if d.removed != {} {
      var k :| k in d.removed;
    } else {
      var k :| k in d.changed;
    }
  }

  /** A hook as `gh_hooks.list` returns it. */
  datatype Hook = Hook(id: int, name: string, config: map<string, string>, events: seq<string>, active: bool)

  /** A hook as the state specifies it. */
  datatype Spec = Spec(name: string, config: map<string, string>, events: seq<string>, active: bool)

  /** An edit: only the fields present are changed. */
  datatype Patch = Patch(config: Option<map<string, string>>, active: Option<bool>, events: Option<seq<string>>)

  predicate IsEmpty(p: Patch)
  {
    p.config.None? && p.active.None? && p.events.None?
  }

  /** The mutating calls into the GitHub hooks API. */
  datatype Call = RemoveHook(repo: string, id: int) | AddHook(repo: string, spec: Spec) | EditHook(repo: string, id: int, patch: Patch)

  /** The comment: empty, or naming the hook whose call failed (the source
      formats the hook into the message). */
  datatype Comment = NoComment | RemoveError(hook: Hook) | AddError(spec: Spec)

  /** The `remove`, `add` and `patch` entries of `changes`. */
  datatype Changes = Changes(remove: Option<seq<Hook>>, add: Option<seq<Spec>>, patch: Option<seq<(string, Patch)>>)

  /** The returned record together with the calls issued, in order. */
  datatype Run = Run(ret: Ret<Changes, Comment>, calls: seq<Call>)

  /** Whether some specified hook has the name. */
  predicate Specified(specs: seq<Spec>, name: string)
  {
    exists k :: 0 <= k < |specs| && specs[k].name == name
  }

  /** The first existing hook with the name, if any. */
  function FindHook(hooks: seq<Hook>, name: string): (r: Option<Hook>)
    ensures r.Some? ==> r.value in hooks && r.value.name == name
    ensures r.None? ==> forall k :: 0 <= k < |hooks| ==> hooks[k].name != name
    decreases |hooks|
  {
    if hooks == [] then None
    else if hooks[0].name == name then Some(hooks[0])
    else
      var r := FindHook(hooks[1..], name);
      assert forall k :: 1 <= k < |hooks| ==> hooks[k] == hooks[1..][k - 1];
      r
  }

  /** The hook found is the first with the name: no hook listed before it
      has that name. */
  lemma {:induction false} FindHookFirst(hooks: seq<Hook>, name: string)
    ensures FindHook(hooks, name).Some? ==>
              exists k :: && 0 <= k < |hooks| && hooks[k] == FindHook(hooks, name).value
                          && forall j :: 0 <= j < k ==> hooks[j].name != name
    decreases |hooks|
  {
    if hooks != [] {
      if hooks[0].name == name {
        assert hooks[0] == FindHook(hooks, name).value;
      } else {
        var r := FindHook(hooks[1..], name);
        FindHookFirst(hooks[1..], name);
        if r.Some? {
          var k :| && 0 <= k < |hooks[1..]| && hooks[1..][k] == r.value
                   && forall j :: 0 <= j < k ==> hooks[1..][j].name != name;
          assert hooks[k + 1] == FindHook(hooks, name).value;
          forall j | 0 <= j < k + 1 ensures hooks[j].name != name {
            if j > 0 {
              assert hooks[j] == hooks[1..][j - 1];
            }
          }
        }
      }
    }
  }

  /** The existing hooks no specified hook names, in list order. */
  function Unmatched(existing: seq<Hook>, specs: seq<Spec>): (r: seq<Hook>)
    ensures forall h :: h in r <==> h in existing && !Specified(specs, h.name)
    decreases |existing|
  {
    if existing == [] then []
    else
      var rest := Unmatched(existing[1..], specs);
      assert forall h :: h in existing <==> h == existing[0] || h in existing[1..];
      if Specified(specs, existing[0].name) then rest else [existing[0]] + rest
  }

  /** The unmatched hooks keep the order of the listing. */
  lemma {:induction false} UnmatchedInOrder(existing: seq<Hook>, specs: seq<Spec>)
    ensures Subsequence(Unmatched(existing, specs), existing)
    decreases |existing|
  {
    if existing != [] {
      var rest := Unmatched(existing[1..], specs);
      UnmatchedInOrder(existing[1..], specs);
      if !Specified(specs, existing[0].name) {
        assert ([existing[0]] + rest)[1..] == rest;
      }
    }
  }

  /** The smallest patch that makes an existing hook agree with its spec:
      the whole config iff the configs differ, `active` iff it differs, and
      the events iff their sets differ. */
  function MakePatch(h: Hook, s: Spec): (p: Patch)
    ensures p.config.Some? <==> h.config != s.config
    ensures p.config.Some? ==> p.config.value == s.config
    ensures p.active.Some? <==> h.active != s.active
    ensures p.active.Some? ==> p.active.value == s.active
    ensures p.events.Some? <==> Elems(h.events) != Elems(s.events)
    ensures p.events.Some? ==> p.events.value == s.events
  {
    var d := DictDiffer(h.config, s.config);
    DictDifferDetects(h.config, s.config);
    Patch(if |d.added| > 0 || |d.removed| > 0 || |d.changed| > 0 then Some(s.config) else None,
          if h.active != s.active then Some(s.active) else None,
          if Elems(h.events) != Elems(s.events) then Some(s.events) else None)
  }

  /** A hook after GitHub applies a patch to it. */
  function ApplyPatch(h: Hook, p: Patch): Hook
  {
    h.(config := if p.config.Some? then p.config.value else h.config,
       active := if p.active.Some? then p.active.value else h.active,
       events := if p.events.Some? then p.events.value else h.events)
  }

  /** The hook agrees with its spec, events compared as sets. */
  predicate Agrees(h: Hook, s: Spec)
  {
    h.config == s.config && h.active == s.active && Elems(h.events) == Elems(s.events)
  }

  /** The patch makes the hook agree with the spec, touches nothing else,
      and is empty exactly when the hook already agrees. */
  lemma PatchReconciles(h: Hook, s: Spec)
    ensures Agrees(ApplyPatch(h, MakePatch(h, s)), s)
    ensures ApplyPatch(h, MakePatch(h, s)).id == h.id && ApplyPatch(h, MakePatch(h, s)).name == h.name
    ensures IsEmpty(MakePatch(h, s)) <==> Agrees(h, s)
  {
  }

  function RemoveOf(repo: string): Hook -> Call
  {
    (h: Hook) => RemoveHook(repo, h.id)
  }

  /** What the walk does with one specified hook: create it, edit the
      existing hook with that id, or leave the existing hook alone. */
  datatype Action = Create(spec: Spec) | Edit(id: int, patch: Patch) | Keep

  /** The action for a specified hook, judged against the first existing
      hook of the same name. */
  function ActionFor(existing: seq<Hook>, s: Spec): (a: Action)
    ensures a.Create? <==> FindHook(existing, s.name).None?
    ensures a.Create? ==> a.spec == s
    ensures a.Edit? ==> !IsEmpty(a.patch)
    // the existing hook is left alone exactly when it already agrees
    ensures a.Keep? <==> FindHook(existing, s.name).Some? && Agrees(FindHook(existing, s.name).value, s)
    // an edit targets that hook and makes it agree
    ensures a.Edit? ==>
              && a.id == FindHook(existing, s.name).value.id
              && a.patch == MakePatch(FindHook(existing, s.name).value, s)
              && Agrees(ApplyPatch(FindHook(existing, s.name).value, a.patch), s)
  {
    var h := FindHook(existing, s.name);
    if h.None? then Create(s)
    else
      var patch := MakePatch(h.value, s);
      PatchReconciles(h.value, s);
      if IsEmpty(patch) then Keep else Edit(h.value.id, patch)
  }

  /** The action of every specified hook, in list order. The listing is
      taken once, before any call, so the actions do not depend on the
      calls made before them. */
  function Actions(existing: seq<Hook>, specs: seq<Spec>): (acts: seq<Action>)
    ensures |acts| == |specs|
    decreases |specs|
  {
    if specs == [] then [] else [ActionFor(existing, specs[0])] + Actions(existing, specs[1..])
  }

  lemma {:induction false} ActionAt(existing: seq<Hook>, specs: seq<Spec>, k: int)
    requires 0 <= k < |specs|
    ensures Actions(existing, specs)[k] == ActionFor(existing, specs[k])
    decreases k
  {
    if k > 0 {
      ActionAt(existing, specs[1..], k - 1);
    }
  }

  /** The creations among the actions are exactly the specified hooks that
      do not exist. */
  lemma CreateActions(existing: seq<Hook>, specs: seq<Spec>)
    ensures forall s :: Create(s) in Actions(existing, specs) <==> s in specs && FindHook(existing, s.name).None?
  {
    var acts := Actions(existing, specs);
    forall s ensures Create(s) in acts <==> s in specs && FindHook(existing, s.name).None? {
      if Create(s) in acts {
        var k :| 0 <= k < |acts| && acts[k] == Create(s);
        ActionAt(existing, specs, k);
      }
      if s in specs && FindHook(existing, s.name).None? {
        var k :| 0 <= k < |specs| && specs[k] == s;
        ActionAt(existing, specs, k);
      }
    }
  }

  /** What the walk over the specified hooks recorded and called, and the
      spec whose addition failed, if any. */
  datatype Walk = Walk(added: seq<Spec>, patched: seq<(string, Patch)>, calls: seq<Call>, failed: Option<Spec>)

  /** Walks the actions in order: a creation whose call fails ends the walk;
      an edit whose call fails is ignored and not recorded. */
  function WalkSpecs(repo: string, actions: seq<Action>, dryRun: bool, ok: Call -> bool): (w: Walk)
    // dry run calls nothing and cannot fail
    ensures dryRun ==> w.calls == [] && w.failed.None?
    decreases |actions|
  {
    if actions == [] then Walk([], [], [], None)
    else
      var rest := WalkSpecs(repo, actions[1..], dryRun, ok);
      match actions[0]
      case Create(s) =>
        if dryRun || ok(AddHook(repo, s)) then
          Walk([s] + rest.added, rest.patched, (if dryRun then [] else [AddHook(repo, s)]) + rest.calls, rest.failed)
        else Walk([], [], [AddHook(repo, s)], Some(s))
      case Edit(id, patch) =>
        var call := EditHook(repo, id, patch);
        var recorded := if dryRun || ok(call) then [(repo, patch)] else [];
        Walk(rest.added, recorded + rest.patched, (if dryRun then [] else [call]) + rest.calls, rest.failed)
      case Keep => rest
  }

  /** Recorded patches come from the edit actions, and so does every edit
      call; the walk never removes a hook. */
  lemma {:induction false} WalkEdits(repo: string, actions: seq<Action>, dryRun: bool, ok: Call -> bool)
    ensures var w := WalkSpecs(repo, actions, dryRun, ok);
            && (forall q :: q in w.patched ==> q.0 == repo && exists a :: a in actions && a.Edit? && a.patch == q.1)
            && (forall c :: c in w.calls ==> c.repo == repo && !c.RemoveHook? && (c.EditHook? ==> Edit(c.id, c.patch) in actions))
    decreases |actions|
  {
    if actions != [] {
      WalkEdits(repo, actions[1..], dryRun, ok);
      assert actions == [actions[0]] + actions[1..];
    }
  }

  /** Every recorded addition is a creation action, and a walk that did not
      fail recorded every creation. */
  lemma {:induction false} WalkAdditions(repo: string, actions: seq<Action>, dryRun: bool, ok: Call -> bool)
    ensures var w := WalkSpecs(repo, actions, dryRun, ok);
            && (forall s :: s in w.added ==> Create(s) in actions)
            && (w.failed.None? ==> forall s :: Create(s) in actions ==> s in w.added)
    decreases |actions|
  {
    if actions != [] {
      WalkAdditions(repo, actions[1..], dryRun, ok);
      assert actions == [actions[0]] + actions[1..];
    }
  }

  /** The specs the creation actions carry, in order. */
  function Creations(actions: seq<Action>): (c: seq<Spec>)
    ensures forall s :: s in c <==> Create(s) in actions
    decreases |actions|
  {
    if actions == [] then []
    else
      var rest := Creations(actions[1..]);
      assert forall a :: a in actions <==> a == actions[0] || a in actions[1..];
      if actions[0].Create? then [actions[0].spec] + rest else rest
  }

  /** The specified hooks with no existing hook of their name, in list
      order: the hooks `present` sets out to create. */
  function Missing(existing: seq<Hook>, specs: seq<Spec>): (m: seq<Spec>)
    ensures forall s :: s in m <==> s in specs && FindHook(existing, s.name).None?
    decreases |specs|
  {
    if specs == [] then []
    else
      var rest := Missing(existing, specs[1..]);
      assert forall s :: s in specs <==> s == specs[0] || s in specs[1..];
      if FindHook(existing, specs[0].name).None? then [specs[0]] + rest else rest
  }

  /** Each missing hook is specified and has no existing namesake. */
  lemma MissingAt(existing: seq<Hook>, specs: seq<Spec>, i: int)
    requires 0 <= i < |Missing(existing, specs)|
    ensures var s := Missing(existing, specs)[i];
            s in specs && FindHook(existing, s.name).None?
  {
    assert Missing(existing, specs)[i] in Missing(existing, specs);
  }

  /** The missing hooks keep the order of the specification. */
  lemma {:induction false} MissingInOrder(existing: seq<Hook>, specs: seq<Spec>)
    ensures Subsequence(Missing(existing, specs), specs)
    decreases |specs|
  {
    if specs != [] {
      var rest := Missing(existing, specs[1..]);
      MissingInOrder(existing, specs[1..]);
      if FindHook(existing, specs[0].name).None? {
        assert ([specs[0]] + rest)[1..] == rest;
      }
    }
  }

  /** The creations among the actions are the missing hooks, in the order
      they are specified. */
  lemma {:induction false} CreationsAreMissing(existing: seq<Hook>, specs: seq<Spec>)
    ensures Creations(Actions(existing, specs)) == Missing(existing, specs)
    decreases |specs|
  {
    if specs != [] {
      var acts := Actions(existing, specs);
      CreationsAreMissing(existing, specs[1..]);
      assert acts[1..] == Actions(existing, specs[1..]);
      assert acts[0] == ActionFor(existing, specs[0]);
    }
  }

  /** The walk records, in order, the creations before the first failing
      one, and all of them when none fails; a failing creation is the next
      one after those recorded. */
  lemma {:induction false} WalkCreations(repo: string, actions: seq<Action>, dryRun: bool, ok: Call -> bool)
    ensures var w := WalkSpecs(repo, actions, dryRun, ok);
            var c := Creations(actions);
            && w.added <= c
            && (w.failed.None? ==> w.added == c)
            && (w.failed.Some? ==> |w.added| < |c| && c[|w.added|] == w.failed.value)
    decreases |actions|
  {
    if actions != [] {
      var w := WalkSpecs(repo, actions, dryRun, ok);
      var rest := WalkSpecs(repo, actions[1..], dryRun, ok);
      var c := Creations(actions[1..]);
      WalkCreations(repo, actions[1..], dryRun, ok);
      match actions[0] {
        case Create(s) =>
          assert Creations(actions) == [s] + c;
          if !dryRun && !ok(AddHook(repo, s)) {
            assert w.added == [] && w.failed == Some(s);
          } else {
            assert w.added == [s] + rest.added && w.failed == rest.failed;
            PrefixPrepend([s], rest.added, c);
          }
        case Edit(id, patch) =>
          assert w.added == rest.added && w.failed == rest.failed;
          assert Creations(actions) == c;
        case Keep =>
          assert w == rest;
          assert Creations(actions) == c;
      }
    }
  }

  /** Only a creation can fail: its call did not go through and is the last
      of the walk. */
  lemma {:induction false} WalkFailure(repo: string, actions: seq<Action>, dryRun: bool, ok: Call -> bool)
    ensures var w := WalkSpecs(repo, actions, dryRun, ok);
            w.failed.Some? ==>
              && !dryRun && Create(w.failed.value) in actions && !ok(AddHook(repo, w.failed.value))
              && |w.calls| > 0 && w.calls[|w.calls| - 1] == AddHook(repo, w.failed.value)
    decreases |actions|
  {
    if actions != [] {
      var w := WalkSpecs(repo, actions, dryRun, ok);
      var rest := WalkSpecs(repo, actions[1..], dryRun, ok);
      WalkFailure(repo, actions[1..], dryRun, ok);
      assert actions == [actions[0]] + actions[1..];
      if w.failed.Some? {
        var head: seq<Call>;
        match actions[0] {
          case Create(s) =>
            if !dryRun && !ok(AddHook(repo, s)) {
              assert w == Walk([], [], [AddHook(repo, s)], Some(s));
              return;
            }
            head := if dryRun then [] else [AddHook(repo, s)];
          case Edit(id, patch) =>
            head := if dryRun then [] else [EditHook(repo, id, patch)];
          case Keep =>
            head := [];
            assert w == rest;
        }
        assert w.failed == rest.failed && w.calls == head + rest.calls;
        assert (head + rest.calls)[|head + rest.calls| - 1] == rest.calls[|rest.calls| - 1];
      }
    }
  }

  /** Every addition and every edit that went through is recorded. */
  lemma {:induction false} WalkRecords(repo: string, actions: seq<Action>, dryRun: bool, ok: Call -> bool)
    ensures var w := WalkSpecs(repo, actions, dryRun, ok);
            && (forall c :: c in w.calls && c.EditHook? && ok(c) ==> (repo, c.patch) in w.patched)
            && (forall c :: c in w.calls && c.AddHook? && ok(c) ==> c.spec in w.added)
    decreases |actions|
  {
    if actions != [] {
      WalkRecords(repo, actions[1..], dryRun, ok);
    }
  }

  /** Only what went through is recorded: each recorded addition and each
      recorded patch has its call, and that call succeeded. */
  lemma {:induction false} WalkTruthful(repo: string, actions: seq<Action>, dryRun: bool, ok: Call -> bool)
    ensures var w := WalkSpecs(repo, actions, dryRun, ok);
            && (forall s :: s in w.added ==> dryRun || (AddHook(repo, s) in w.calls && ok(AddHook(repo, s))))
            && (forall q :: q in w.patched ==> dryRun || exists c :: c in w.calls && c.EditHook? && c.patch == q.1 && ok(c))
    decreases |actions|
  {
    if actions != [] && !dryRun {
      var w := WalkSpecs(repo, actions, dryRun, ok);
      var rest := WalkSpecs(repo, actions[1..], dryRun, ok);
      WalkTruthful(repo, actions[1..], dryRun, ok);
      match actions[0] {
        case Create(s) =>
          if ok(AddHook(repo, s)) {
            assert w.calls == [AddHook(repo, s)] + rest.calls && w.patched == rest.patched;
          }
        case Edit(id, patch) =>
          var call := EditHook(repo, id, patch);
          assert w.calls == [call] + rest.calls && w.added == rest.added;
          forall q | q in w.patched ensures exists c :: c in w.calls && c.EditHook? && c.patch == q.1 && ok(c) {
            if q !in rest.patched {
              assert call in w.calls;
            } else {
              var c :| c in rest.calls && c.EditHook? && c.patch == q.1 && ok(c);
              assert c in w.calls;
            }
          }
        case Keep =>
      }
    }
  }

  /** The patches an edit-only reading of the actions keeps: the patch of
      each edit, in order, where its call goes through (every one under dry
      run). Creations play no part. */
  function KeptPatches(repo: string, actions: seq<Action>, dryRun: bool, ok: Call -> bool): (kept: seq<(string, Patch)>)
    ensures |kept| <= |actions|
    ensures forall q :: q in kept ==> q.0 == repo
    decreases |actions|
  {
    if actions == [] then []
    else
      var a := actions[0];
      var rest := KeptPatches(repo, actions[1..], dryRun, ok);
      if a.Edit? && (dryRun || ok(EditHook(repo, a.id, a.patch))) then [(repo, a.patch)] + rest else rest
  }

  /** Under dry run every edit's patch is kept. */
  lemma {:induction false} KeptOnDryRun(repo: string, actions: seq<Action>, ok: Call -> bool)
    ensures forall a :: a in actions && a.Edit? ==> (repo, a.patch) in KeptPatches(repo, actions, true, ok)
    decreases |actions|
  {
    if actions != [] {
      KeptOnDryRun(repo, actions[1..], ok);
      assert forall a :: a in actions ==> a == actions[0] || a in actions[1..];
    }
  }

  /** The walk's patch ledger is exactly the kept patches when no creation
      failed, and a prefix of them when one did. */
  lemma {:induction false} WalkPatches(repo: string, actions: seq<Action>, dryRun: bool, ok: Call -> bool)
    ensures var w := WalkSpecs(repo, actions, dryRun, ok);
            && w.patched <= KeptPatches(repo, actions, dryRun, ok)
            && (w.failed.None? ==> w.patched == KeptPatches(repo, actions, dryRun, ok))
    decreases |actions|
  {
    if actions != [] {
      var w := WalkSpecs(repo, actions, dryRun, ok);
      var rest := WalkSpecs(repo, actions[1..], dryRun, ok);
      var kept := KeptPatches(repo, actions[1..], dryRun, ok);
      WalkPatches(repo, actions[1..], dryRun, ok);
      match actions[0] {
        case Create(s) =>
          if !dryRun && !ok(AddHook(repo, s)) {
            assert w.patched == [];
          } else {
            assert w.patched == rest.patched && w.failed == rest.failed;
          }
        case Edit(id, patch) =>
          var head := if dryRun || ok(EditHook(repo, id, patch)) then [(repo, patch)] else [];
          assert w.patched == head + rest.patched && w.failed == rest.failed;
          assert KeptPatches(repo, actions, dryRun, ok) == head + kept;
          PrefixPrepend(head, rest.patched, kept);
        case Keep =>
          assert w == rest;
      }
    }
  }

  /** The strict removal pass over the unmatched hooks, in list order. */
  function Removal(repo: string, specs: seq<Spec>, existing: seq<Hook>, strict: bool, dryRun: bool, ok: Call -> bool): (b: Batch<Hook>)
    // nothing is removed without strict mode, and dry run never fails
    ensures !strict ==> b.done == [] && b.failed.None?
    ensures b.failed.Some? ==> strict && !dryRun && !ok(RemoveHook(repo, b.failed.value.id))
    ensures b.done <= Unmatched(existing, specs)
  {
    if strict then RunBatch(Unmatched(existing, specs), dryRun, Through(ok, RemoveOf(repo))) else Batch([], None)
  }

  /** The `remove` entry: absent until a removal is recorded. */
  function Removed(b: Batch<Hook>): (o: Option<seq<Hook>>)
    ensures Ledger(o) == b.done && (o.Some? ==> o.value != [])
  {
    if b.done == [] then None else Some(b.done)
  }

  /** The calls of the removal pass: one per kept hook, none under dry run. */
  function RemovalCalls(repo: string, b: Batch<Hook>, dryRun: bool): (calls: seq<Call>)
    ensures forall c :: c in calls ==> c.RemoveHook?
    ensures dryRun ==> calls == []
  {
    if dryRun then [] else MapSeq(RemoveOf(repo), b.done)
  }

  /** `present` once a removal failed: the removals so far, then the
      failing call; nothing is added or patched. */
  function Stopped(repo: string, b: Batch<Hook>, dryRun: bool): (r: Run)
    requires b.failed.Some?
    ensures r.ret.name == repo && !r.ret.result && r.ret.comment == RemoveError(b.failed.value)
    ensures r.ret.changes == Changes(Removed(b), None, None)
    ensures forall c :: c in r.calls ==> c.RemoveHook?
    ensures |r.calls| > 0 && r.calls[|r.calls| - 1] == RemoveHook(repo, b.failed.value.id)
  {
    var calls := RemovalCalls(repo, b, dryRun) + [RemoveOf(repo)(b.failed.value)];
    assert calls[|calls| - 1] == RemoveOf(repo)(b.failed.value);
    Run(Ret(repo, Changes(Removed(b), None, None), false, RemoveError(b.failed.value)), calls)
  }

  /** The calls of one pass followed by those of the next. */
  function Then(first: seq<Call>, next: seq<Call>): (calls: seq<Call>)
    ensures forall c :: c in calls <==> c in first || c in next
    ensures |next| > 0 ==> |calls| > 0 && calls[|calls| - 1] == next[|next| - 1]
    ensures first == [] ==> calls == next
  {
    assert |next| > 0 ==> (first + next)[|first + next| - 1] == next[|next| - 1];
    first + next
  }

  /** `present` past a removal pass that did not fail: it reports the
      walk `w` over the actions (its additions, patches and failure), and
      its calls follow those of the removals. */
  function Finish(repo: string, b: Batch<Hook>, w: Walk, dryRun: bool): (r: Run)
    requires dryRun ==> w.calls == [] && w.failed.None?
    ensures r.ret.name == repo && r.ret.changes.remove == Removed(b)
    ensures && Ledger(r.ret.changes.add) == w.added
            && Ledger(r.ret.changes.patch) == w.patched
            && (r.ret.result <==> w.failed.None?)
            && (r.ret.comment == if w.failed.Some? then AddError(w.failed.value) else NoComment)
            && (forall c :: c in r.calls <==> c in RemovalCalls(repo, b, dryRun) || c in w.calls)
            && (|w.calls| > 0 ==> |r.calls| > 0 && r.calls[|r.calls| - 1] == w.calls[|w.calls| - 1])
    ensures dryRun ==> r.calls == [] && r.ret.result
  {
    Run(Ret(repo, Changes(Removed(b), if w.added == [] then None else Some(w.added),
                           if w.patched == [] then None else Some(w.patched)),
            w.failed.None?, if w.failed.Some? then AddError(w.failed.value) else NoComment),
        Then(RemovalCalls(repo, b, dryRun), w.calls))
  }

  /** `present`; `existing` is what `gh_hooks.list` returns. */
  function Present(repo: string, specs: seq<Spec>, existing: seq<Hook>, strict: bool, dryRun: bool, ok: Call -> bool): (r: Run)
    ensures r.ret.name == repo
    ensures r.ret.result <==> r.ret.comment == NoComment
    // a `remove` key exists only once a removal is recorded
    ensures r.ret.changes.remove.Some? ==> r.ret.changes.remove.value != []
    // dry run calls nothing and cannot fail
    ensures dryRun ==> r.calls == [] && r.ret.result
  {
    var removal := Removal(repo, specs, existing, strict, dryRun, ok);
    if removal.failed.Some? then Stopped(repo, removal, dryRun)
    else Finish(repo, removal, WalkSpecs(repo, Actions(existing, specs), dryRun, ok), dryRun)
  }

  /** Past the removals, the run reports the walk over the actions: its
      ledgers are the walk's, and every call of the walk is made. */
  lemma PastRemovals(repo: string, specs: seq<Spec>, existing: seq<Hook>, strict: bool, dryRun: bool, ok: Call -> bool)
    requires !Present(repo, specs, existing, strict, dryRun, ok).ret.comment.RemoveError?
    ensures var r := Present(repo, specs, existing, strict, dryRun, ok);
            var w := WalkSpecs(repo, Actions(existing, specs), dryRun, ok);
            && Ledger(r.ret.changes.add) == w.added
            && Ledger(r.ret.changes.patch) == w.patched
            && r.ret.comment == (if w.failed.Some? then AddError(w.failed.value) else NoComment)
            && (forall c :: c in w.calls ==> c in r.calls)
            && (|w.calls| > 0 ==> |r.calls| > 0 && r.calls[|r.calls| - 1] == w.calls[|w.calls| - 1])
  {
    assert Removal(repo, specs, existing, strict, dryRun, ok).failed.None?;
  }

  /** Without strict mode nothing is removed. */
  lemma PresentLenient(repo: string, specs: seq<Spec>, existing: seq<Hook>, dryRun: bool, ok: Call -> bool)
    ensures var r := Present(repo, specs, existing, false, dryRun, ok);
            r.ret.changes.remove.None? && forall c :: c in r.calls ==> !c.RemoveHook?
  {
    WalkEdits(repo, Actions(existing, specs), dryRun, ok);
  }

  /** The `remove` entry records what the removal pass kept, and the run
      reports a failed removal exactly when the pass failed. */
  lemma PresentRemovalLedger(repo: string, specs: seq<Spec>, existing: seq<Hook>, strict: bool, dryRun: bool, ok: Call -> bool)
    ensures var r := Present(repo, specs, existing, strict, dryRun, ok);
            var removal := Removal(repo, specs, existing, strict, dryRun, ok);
            && Ledger(r.ret.changes.remove) == removal.done
            && (r.ret.comment.RemoveError? <==> removal.failed.Some?)
  {
  }

  /** Under strict mode the hooks removed are exactly the unmatched ones
      whose removal went through, in list order, stopping at the first
      failure; a successful run removed every one. */
  lemma PresentRemovals(repo: string, specs: seq<Spec>, existing: seq<Hook>, strict: bool, dryRun: bool, ok: Call -> bool)
    ensures var r := Present(repo, specs, existing, strict, dryRun, ok);
            && Ledger(r.ret.changes.remove) <= Unmatched(existing, specs)
            && (forall h :: h in Ledger(r.ret.changes.remove) ==> h in existing && !Specified(specs, h.name))
            && (forall h :: h in Ledger(r.ret.changes.remove) ==> dryRun || ok(RemoveHook(repo, h.id)))
            && (strict && !r.ret.comment.RemoveError? ==> Ledger(r.ret.changes.remove) == Unmatched(existing, specs))
  {
    PresentRemovalLedger(repo, specs, existing, strict, dryRun, ok);
    RemovalDone(repo, specs, existing, strict, dryRun, ok);
  }

  lemma RemovalDone(repo: string, specs: seq<Spec>, existing: seq<Hook>, strict: bool, dryRun: bool, ok: Call -> bool)
    ensures var b := Removal(repo, specs, existing, strict, dryRun, ok);
            && b.done <= Unmatched(existing, specs)
            && (forall h :: h in b.done ==> h in existing && !Specified(specs, h.name))
            && (forall h :: h in b.done ==> dryRun || ok(RemoveHook(repo, h.id)))
            && (strict && b.failed.None? ==> b.done == Unmatched(existing, specs))
  {
    var u := Unmatched(existing, specs);
    var done := Removal(repo, specs, existing, strict, dryRun, ok).done;
    if strict {
      BatchThrough(u, dryRun, ok, RemoveOf(repo));
    }
    forall h | h in done ensures h in u {
      var k :| 0 <= k < |done| && done[k] == h;
      assert u[k] == h;
    }
  }

  /** A failed removal ends the run before any addition or patch: the
      comment names the hook, which is unmatched, and its call is the last. */
  lemma PresentRemoveFailure(repo: string, specs: seq<Spec>, existing: seq<Hook>, strict: bool, dryRun: bool, ok: Call -> bool)
    requires Present(repo, specs, existing, strict, dryRun, ok).ret.comment.RemoveError?
    ensures var r := Present(repo, specs, existing, strict, dryRun, ok);
            var h := r.ret.comment.hook;
            && strict && !dryRun && !r.ret.result
            && h in existing && !Specified(specs, h.name)
            && Ledger(r.ret.changes.remove) + [h] <= Unmatched(existing, specs)
            && !ok(RemoveHook(repo, h.id))
            && r.ret.changes.add.None? && r.ret.changes.patch.None?
            && (forall c :: c in r.calls ==> c.RemoveHook?)
            && r.calls[|r.calls| - 1] == RemoveHook(repo, h.id)
  {
    var removal := Removal(repo, specs, existing, strict, dryRun, ok);
    var u := Unmatched(existing, specs);
    assert removal.failed.Some?;
    assert Present(repo, specs, existing, strict, dryRun, ok) == Stopped(repo, removal, dryRun);
    var h := removal.failed.value;
    assert strict && !dryRun && h == u[|removal.done|];
    assert !Through(ok, RemoveOf(repo))(h);
    PrefixExtend(removal.done, u);
  }

  /** Past the removals, every recorded addition is a specified hook that
      did not exist, and a successful run added every such hook. */
  lemma PresentAdditions(repo: string, specs: seq<Spec>, existing: seq<Hook>, strict: bool, dryRun: bool, ok: Call -> bool)
    requires !Present(repo, specs, existing, strict, dryRun, ok).ret.comment.RemoveError?
    ensures var r := Present(repo, specs, existing, strict, dryRun, ok);
            && (forall s :: s in Ledger(r.ret.changes.add) ==> s in specs && FindHook(existing, s.name).None?)
            && (r.ret.result ==> forall s :: s in specs && FindHook(existing, s.name).None? ==> s in Ledger(r.ret.changes.add))
  {
    WalkAdditions(repo, Actions(existing, specs), dryRun, ok);
    CreateActions(existing, specs);
  }

  /** The `add` entry holds, in list order, the specified hooks that did
      not exist, up to the first whose creation failed; that one is the
      next missing hook, and a successful run records them all. */
  lemma PresentCreations(repo: string, specs: seq<Spec>, existing: seq<Hook>, strict: bool, dryRun: bool, ok: Call -> bool)
    ensures var r := Present(repo, specs, existing, strict, dryRun, ok);
            var added := Ledger(r.ret.changes.add);
            var m := Missing(existing, specs);
            && added <= m
            && (r.ret.result ==> added == m)
            && (r.ret.comment.AddError? ==> |added| < |m| && m[|added|] == r.ret.comment.spec)
  {
    WalkCreations(repo, Actions(existing, specs), dryRun, ok);
    CreationsAreMissing(existing, specs);
  }

  /** A failed addition ends the run: the spec was specified and did not
      exist, its call did not go through, and that call is the last. */
  lemma PresentAddFailure(repo: string, specs: seq<Spec>, existing: seq<Hook>, strict: bool, dryRun: bool, ok: Call -> bool)
    requires Present(repo, specs, existing, strict, dryRun, ok).ret.comment.AddError?
    ensures var r := Present(repo, specs, existing, strict, dryRun, ok);
            var s := r.ret.comment.spec;
            && !dryRun && !r.ret.result && s in specs && FindHook(existing, s.name).None? && !ok(AddHook(repo, s))
            && |r.calls| > 0 && r.calls[|r.calls| - 1] == AddHook(repo, s)
  {
    var r := Present(repo, specs, existing, strict, dryRun, ok);
    var acts := Actions(existing, specs);
    var w := WalkSpecs(repo, acts, dryRun, ok);
    PastRemovals(repo, specs, existing, strict, dryRun, ok);
    assert w.failed.Some? && r.ret.comment.spec == w.failed.value;
    var s := w.failed.value;
    assert !dryRun && !ok(AddHook(repo, s)) && |w.calls| > 0 && w.calls[|w.calls| - 1] == AddHook(repo, s) by {
      WalkFailure(repo, acts, dryRun, ok);
    }
    assert s in specs && FindHook(existing, s.name).None? by {
      PresentCreations(repo, specs, existing, strict, dryRun, ok);
      MissingAt(existing, specs, |Ledger(r.ret.changes.add)|);
    }
  }


  /** Every edit action carries a non-empty patch for the existing hook
      of a specified name, and the patch makes that hook agree. */
  lemma EditActions(existing: seq<Hook>, specs: seq<Spec>)
    ensures forall id, patch :: Edit(id, patch) in Actions(existing, specs) ==>
              && !IsEmpty(patch)
              && exists k :: && 0 <= k < |specs| && FindHook(existing, specs[k].name).Some?
                             && FindHook(existing, specs[k].name).value.id == id
                             && Agrees(ApplyPatch(FindHook(existing, specs[k].name).value, patch), specs[k])
  {
    var acts := Actions(existing, specs);
    forall id, patch | Edit(id, patch) in acts
      ensures exists k :: && 0 <= k < |specs| && FindHook(existing, specs[k].name).Some?
                          && FindHook(existing, specs[k].name).value.id == id
                          && Agrees(ApplyPatch(FindHook(existing, specs[k].name).value, patch), specs[k])
    {
      var k :| 0 <= k < |acts| && acts[k] == Edit(id, patch);
      ActionAt(existing, specs, k);
    }
  }

  /** Past the removals, each edit is issued to an existing hook of a
      specified name, with a non-empty patch that makes that hook agree. */
  lemma PresentPatchTargets(repo: string, specs: seq<Spec>, existing: seq<Hook>, strict: bool, dryRun: bool, ok: Call -> bool)
    requires !Present(repo, specs, existing, strict, dryRun, ok).ret.comment.RemoveError?
    ensures var r := Present(repo, specs, existing, strict, dryRun, ok);
            forall c :: c in r.calls && c.EditHook? ==>
              && !IsEmpty(c.patch)
              && exists k :: && 0 <= k < |specs| && FindHook(existing, specs[k].name).Some?
                             && FindHook(existing, specs[k].name).value.id == c.id
                             && Agrees(ApplyPatch(FindHook(existing, specs[k].name).value, c.patch), specs[k])
  {
    var r := Present(repo, specs, existing, strict, dryRun, ok);
    var acts := Actions(existing, specs);
    var w := WalkSpecs(repo, acts, dryRun, ok);
    WalkEdits(repo, acts, dryRun, ok);
    assert forall c :: c in r.calls && c.EditHook? ==> Edit(c.id, c.patch) in acts;
    EditActions(existing, specs);
  }

  /** Past the removals, a recorded patch is never empty, an edit is
      recorded when it goes through, and a failed edit changes neither the
      result nor the comment. */
  lemma PresentPatches(repo: string, specs: seq<Spec>, existing: seq<Hook>, strict: bool, dryRun: bool, ok: Call -> bool)
    requires !Present(repo, specs, existing, strict, dryRun, ok).ret.comment.RemoveError?
    ensures var r := Present(repo, specs, existing, strict, dryRun, ok);
            && (forall q :: q in Ledger(r.ret.changes.patch) ==> q.0 == repo && !IsEmpty(q.1))
            && (forall c :: c in r.calls && c.EditHook? && ok(c) ==> (repo, c.patch) in Ledger(r.ret.changes.patch))
            && (!r.ret.result ==> r.ret.comment.AddError?)
  {
    var acts := Actions(existing, specs);
    var w := WalkSpecs(repo, acts, dryRun, ok);
    WalkRecords(repo, acts, dryRun, ok);
    WalkEdits(repo, acts, dryRun, ok);
    EditActions(existing, specs);
    forall q | q in w.patched ensures !IsEmpty(q.1) {
      var a :| a in acts && a.Edit? && a.patch == q.1;
      assert Edit(a.id, a.patch) in acts;
    }
  }

  /** Past the removals, only what went through is recorded: each recorded
      addition and patch has its call in the trace, and that call
      succeeded. */
  lemma PresentTruthful(repo: string, specs: seq<Spec>, existing: seq<Hook>, strict: bool, dryRun: bool, ok: Call -> bool)
    requires !Present(repo, specs, existing, strict, dryRun, ok).ret.comment.RemoveError?
    ensures var r := Present(repo, specs, existing, strict, dryRun, ok);
            && (forall s :: s in Ledger(r.ret.changes.add) ==> dryRun || (AddHook(repo, s) in r.calls && ok(AddHook(repo, s))))
            && (forall q :: q in Ledger(r.ret.changes.patch) ==>
                  dryRun || exists c :: c in r.calls && c.EditHook? && c.patch == q.1 && ok(c))
  {
    var r := Present(repo, specs, existing, strict, dryRun, ok);
    var acts := Actions(existing, specs);
    var w := WalkSpecs(repo, acts, dryRun, ok);
    PastRemovals(repo, specs, existing, strict, dryRun, ok);
    WalkTruthful(repo, acts, dryRun, ok);
    forall q | q in Ledger(r.ret.changes.patch) && !dryRun
      ensures exists c :: c in r.calls && c.EditHook? && c.patch == q.1 && ok(c)
    {
      assert q in w.patched;
      assert exists c :: c in w.calls && c.EditHook? && c.patch == q.1 && ok(c);
      var c :| c in w.calls && c.EditHook? && c.patch == q.1 && ok(c);
      assert c in r.calls;
    }
  }

  /** The `patch` entry is the kept patches of the specified hooks' actions,
      or a prefix of them when the run stopped early: a failed edit is
      skipped without ending the run, and only a failed removal or
      addition cuts the ledger short. */
  lemma PresentPatchLedger(repo: string, specs: seq<Spec>, existing: seq<Hook>, strict: bool, dryRun: bool, ok: Call -> bool)
    ensures var r := Present(repo, specs, existing, strict, dryRun, ok);
            var kept := KeptPatches(repo, Actions(existing, specs), dryRun, ok);
            && Ledger(r.ret.changes.patch) <= kept
            && (r.ret.result ==> Ledger(r.ret.changes.patch) == kept)
  {
    WalkPatches(repo, Actions(existing, specs), dryRun, ok);
  }

  /** Under dry run every specified hook that exists but does not agree has
      its patch recorded. */
  lemma PresentDryRunPatches(repo: string, specs: seq<Spec>, existing: seq<Hook>, strict: bool, ok: Call -> bool)
    ensures forall k :: 0 <= k < |specs| && FindHook(existing, specs[k].name).Some?
                        && !Agrees(FindHook(existing, specs[k].name).value, specs[k]) ==>
              (repo, MakePatch(FindHook(existing, specs[k].name).value, specs[k]))
                in Ledger(Present(repo, specs, existing, strict, true, ok).ret.changes.patch)
  {
    var acts := Actions(existing, specs);
    PresentPatchLedger(repo, specs, existing, strict, true, ok);
    KeptOnDryRun(repo, acts, ok);
    forall k | 0 <= k < |specs| && FindHook(existing, specs[k].name).Some? && !Agrees(FindHook(existing, specs[k].name).value, specs[k])
      ensures (repo, MakePatch(FindHook(existing, specs[k].name).value, specs[k])) in KeptPatches(repo, acts, true, ok)
    {
      ActionAt(existing, specs, k);
      assert acts[k] in acts;
    }
  }
}
