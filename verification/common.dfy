/**
 Shared vocabulary of the reconciling states: the optional value, the `ret`
 record every state returns, the set difference between desired and observed
 identifiers, and the fail-fast runner that applies one batch of operations.
 */
module Common {

  /** Python's `None` versus a value. */
  datatype Option<T> = None | Some(value: T)

  /** The record `{name, changes, result, comment}` a state function returns.
      `changes` holds one optional entry per key the source may put into the
      changes dict; `comment` is a string except where the source formats an
      object into it. */
  datatype Ret<C, M> = Ret(name: string, changes: C, result: bool, comment: M)

  /** The elements of a list, as Python's `set(list)`. */
  function Elems<T>(s: seq<T>): set<T>
  {
    set x | x in s
  }

  predicate NoDup<T(==)>(s: seq<T>)
  {
    forall i, j :: 0 <= i < j < |s| ==> s[i] != s[j]
  }

  /** `s` lists every element of `xs` exactly once: one admissible iteration
      order of the set. */
  predicate Enumerates<T(==)>(s: seq<T>, xs: set<T>)
  {
    NoDup(s) && Elems(s) == xs
  }

  /** Some iteration order of a set. The interpreter's order over a set is
      unspecified; this picks an arbitrary one, and nothing but its contract
      is ever used about it. */
  ghost function Enumerate<T>(xs: set<T>): (r: seq<T>)
    ensures Enumerates(r, xs)
    ensures |r| == |xs|
    decreases xs
  {
    if xs == {} then []
    else
      var x :| x in xs;
      var rest := Enumerate(xs - {x});
      ConsEnumerates(x, rest, xs);
      [x] + rest
  }

  lemma ConsEnumerates<T>(x: T, rest: seq<T>, xs: set<T>)
    requires x in xs && Enumerates(rest, xs - {x}) && |rest| == |xs - {x}|
    ensures Enumerates([x] + rest, xs) && |[x] + rest| == |xs|
  {
    var s := [x] + rest;
    assert x !in rest;
    forall i, j | 0 <= i < j < |s| ensures s[i] != s[j] {
      if i == 0 {
        assert s[j] == rest[j - 1];
      } else {
        assert s[i] == rest[i - 1] && s[j] == rest[j - 1];
      }
    }
    assert Elems(s) == {x} + Elems(rest);
    assert xs == (xs - {x}) + {x};
  }

  function MapSeq<T, U>(f: T -> U, s: seq<T>): (r: seq<U>)
    ensures |r| == |s|
    ensures forall i :: 0 <= i < |s| ==> r[i] == f(s[i])
  {
    seq(|s|, i requires 0 <= i < |s| => f(s[i]))
  }

  /** Every item's image is among the mapped items. */
  lemma MapSeqHas<T, U>(f: T -> U, s: seq<T>)
    ensures forall x :: x in s ==> f(x) in MapSeq(f, s)
  {
    forall x | x in s ensures f(x) in MapSeq(f, s) {
      var k :| 0 <= k < |s| && s[k] == x;
      assert MapSeq(f, s)[k] == f(x);
    }
  }

  /** The plan of a set reconciliation: what to add and what to prune. */
  datatype Diff<T> = Diff(toAdd: set<T>, toRemove: set<T>)

  /** `to_add = desired - current` always; `to_remove = current - desired`
      only under strict mode, the empty set otherwise. */
  function SetDiff<T>(desired: set<T>, current: set<T>, strict: bool): (d: Diff<T>)
    ensures d.toAdd <= desired && d.toAdd !! current
    ensures desired <= current + d.toAdd
    ensures d.toRemove <= current && d.toRemove !! desired
    ensures strict ==> current - d.toRemove <= desired
    ensures strict ==> (current - d.toRemove) + d.toAdd == desired
    ensures !strict ==> d.toRemove == {} && desired <= current + d.toAdd
  {
    Diff(desired - current, if strict then current - desired else {})
  }

  /** What one batch of remote calls achieved: the items whose call went
      through (in order) and the item whose call failed, if any. */
  datatype Batch<T> = Batch(done: seq<T>, failed: Option<T>)

  /** Walks `items` in order; each item is kept when `dryRun` holds or its
      remote call succeeds, and the first failing call ends the batch. */
  function RunBatch<T>(items: seq<T>, dryRun: bool, ok: T -> bool): (b: Batch<T>)
    ensures b.done <= items
    ensures forall k :: 0 <= k < |b.done| ==> dryRun || ok(b.done[k])
    ensures b.failed.None? <==> b.done == items
    ensures b.failed.Some? ==>
              && !dryRun
              && |b.done| < |items|
              && b.failed.value == items[|b.done|]
              && !ok(items[|b.done|])
    ensures dryRun ==> b == Batch(items, None)
  {
    if items == [] then Batch([], None)
    else if dryRun || ok(items[0]) then
      var rest := RunBatch(items[1..], dryRun, ok);
      assert items == [items[0]] + items[1..];
      Batch([items[0]] + rest.done, rest.failed)
    else Batch([], Some(items[0]))
  }

  /** A recorded list of changes; a missing key records nothing. */
  function Ledger<T>(o: Option<seq<T>>): seq<T>
  {
    if o.Some? then o.value else []
  }

  /** Whether the call for an item goes through. */
  function Through<T, K>(ok: K -> bool, call: T -> K): T -> bool
  {
    x => ok(call(x))
  }

  /** Every item a batch kept had its call go through, unless under dry run. */
  lemma BatchThrough<T, K>(items: seq<T>, dryRun: bool, ok: K -> bool, call: T -> K)
    ensures forall x :: x in RunBatch(items, dryRun, Through(ok, call)).done ==> dryRun || ok(call(x))
  {
    var b := RunBatch(items, dryRun, Through(ok, call));
    forall x | x in b.done ensures dryRun || ok(call(x)) {
      var k :| 0 <= k < |b.done| && b.done[k] == x;
      assert dryRun || Through(ok, call)(b.done[k]);
    }
  }

  /** Runs a batch over `planned`, in some order of the set. */
  ghost function Phase<T>(planned: set<T>, dryRun: bool, ok: T -> bool): (b: Batch<T>)
    ensures NoDup(b.done) && Elems(b.done) <= planned
    ensures b.failed.None? ==> Elems(b.done) == planned
    ensures forall x :: x in b.done ==> dryRun || ok(x)
    ensures dryRun ==> b.failed.None?
    ensures b.failed.Some? ==> b.failed.value in planned && b.failed.value !in b.done && !ok(b.failed.value)
  {
    var order := Enumerate(planned);
    var b := RunBatch(order, dryRun, ok);
    PrefixKeepsNoDup(b.done, order);
    forall x | x in b.done ensures dryRun || ok(x) {
      var k :| 0 <= k < |b.done| && b.done[k] == x;
    }
    if b.failed.Some? then
      NextItemNotInPrefix(b.done, order);
      b
    else b
  }

  lemma PrefixKeepsNoDup<T>(p: seq<T>, s: seq<T>)
    requires p <= s && NoDup(s)
    ensures NoDup(p)
  {
    forall i, j | 0 <= i < j < |p| ensures p[i] != p[j] {
      assert p[i] == s[i] && p[j] == s[j];
    }
  }

  lemma NextItemNotInPrefix<T>(p: seq<T>, s: seq<T>)
    requires p <= s && |p| < |s| && NoDup(s)
    ensures s[|p|] !in p
  {
  }

  /** Putting the same items in front keeps a prefix a prefix. */
  lemma PrefixPrepend<T>(h: seq<T>, p: seq<T>, s: seq<T>)
    requires p <= s
    ensures h + p <= h + s
  {
    assert (h + s)[..|h + p|] == h + p;
  }

  /** A prefix followed by the next item is still a prefix. */
  lemma PrefixExtend<T>(p: seq<T>, s: seq<T>)
    requires p <= s && |p| < |s|
    ensures p + [s[|p|]] <= s
  {
    assert p + [s[|p|]] == s[..|p| + 1];
  }

  /** `a` is `b` with some items left out and the others in their order. */
  predicate Subsequence<T(==)>(a: seq<T>, b: seq<T>)
    decreases |b|
  {
    if a == [] then true
    else if b == [] then false
    else (a[0] == b[0] && Subsequence(a[1..], b[1..])) || Subsequence(a, b[1..])
  }

  /** The item whose call stopped a pass, and in which phase. */
  datatype Failed<T> = FailedAdd(item: T) | FailedRemove(item: T)

  /** What one add-then-remove pass over a set plan recorded: the
      `add_...` and `remove_...` ledgers (absent when that side of the plan
      is empty, or was never reached) and the failure, if any. */
  datatype Pass<T> = Pass(added: Option<seq<T>>, removed: Option<seq<T>>, failure: Option<Failed<T>>)

  /** Applies a set plan the way the reconciling states do: every addition
      first, in some order of the set, then every removal; dry run skips
      each call but still records it; the first failing call ends the pass.
      `okAdd`/`okRemove` say whether the call for an item goes through. */
  ghost function AddThenRemove<T>(d: Diff<T>, dryRun: bool, okAdd: T -> bool, okRemove: T -> bool): (p: Pass<T>)
    // a ledger key exists only for a non-empty side of the plan
    ensures p.added.Some? <==> d.toAdd != {}
    ensures p.removed.Some? ==> d.toRemove != {}
    ensures p.failure.None? ==> (p.removed.Some? <==> d.toRemove != {})
    // every recorded item was planned, and is recorded once
    ensures NoDup(Ledger(p.added)) && Elems(Ledger(p.added)) <= d.toAdd
    ensures NoDup(Ledger(p.removed)) && Elems(Ledger(p.removed)) <= d.toRemove
    // a pass without failure records the whole plan
    ensures p.failure.None? ==> Elems(Ledger(p.added)) == d.toAdd && Elems(Ledger(p.removed)) == d.toRemove
    // the ledger is truthful: each recorded call went through
    ensures forall x :: x in Ledger(p.added) ==> dryRun || okAdd(x)
    ensures forall x :: x in Ledger(p.removed) ==> dryRun || okRemove(x)
    // dry run never fails
    ensures dryRun ==> p.failure.None?
    // the failing item was planned, is not recorded, and its call failed
    ensures p.failure.Some? && p.failure.value.FailedAdd? ==>
              var x := p.failure.value.item;
              x in d.toAdd && x !in Ledger(p.added) && !okAdd(x) && p.removed.None?
    ensures p.failure.Some? && p.failure.value.FailedRemove? ==>
              var x := p.failure.value.item;
              x in d.toRemove && x !in Ledger(p.removed) && !okRemove(x)
              && p.removed.Some? && Elems(Ledger(p.added)) == d.toAdd
  {
    var adds := Phase(d.toAdd, dryRun, okAdd);
    var added := if d.toAdd == {} then None else Some(adds.done);
    assert Ledger(added) == adds.done;
    if adds.failed.Some? then
      Pass(added, None, Some(FailedAdd(adds.failed.value)))
    else
      var removes := Phase(d.toRemove, dryRun, okRemove);
      var removed := if d.toRemove == {} then None else Some(removes.done);
      assert Ledger(removed) == removes.done;
      Pass(added, removed, if removes.failed.Some? then Some(FailedRemove(removes.failed.value)) else None)
  }

  /** The calls a pass issues, in order: none under dry run; otherwise one per
      recorded addition, then one per recorded removal, then the failing call.
      Nothing recorded goes uncalled and nothing is called after a failure. */
  function PassCalls<T, K>(p: Pass<T>, dryRun: bool, addCall: T -> K, removeCall: T -> K): (calls: seq<K>)
    ensures dryRun ==> calls == []
    // a real pass makes one call per recorded item, plus the failing one
    ensures !dryRun ==> |calls| == |Ledger(p.added)| + |Ledger(p.removed)| + (if p.failure.Some? then 1 else 0)
    ensures !dryRun ==> forall x :: x in Ledger(p.added) ==> addCall(x) in calls
    ensures !dryRun ==> forall x :: x in Ledger(p.removed) ==> removeCall(x) in calls
    // the failing call is the last one
    ensures !dryRun && p.failure.Some? && p.failure.value.FailedAdd? ==> calls[|calls| - 1] == addCall(p.failure.value.item)
    ensures !dryRun && p.failure.Some? && p.failure.value.FailedRemove? ==> calls[|calls| - 1] == removeCall(p.failure.value.item)
  {
    if dryRun then []
    else
      var adds := MapSeq(addCall, Ledger(p.added));
      var removes := MapSeq(removeCall, Ledger(p.removed));
      var last := match p.failure
        case None => []
        case Some(FailedAdd(x)) => [addCall(x)]
        case Some(FailedRemove(x)) => [removeCall(x)];
      MapSeqHas(addCall, Ledger(p.added));
      MapSeqHas(removeCall, Ledger(p.removed));
      assert last != [] ==> (adds + removes + last)[|adds + removes + last| - 1] == last[0];
      adds + removes + last
  }

  /** Every call of a pass is one of its add or remove calls. */
  lemma PassCallsAre<T, K>(p: Pass<T>, dryRun: bool, addCall: T -> K, removeCall: T -> K, P: K -> bool)
    requires forall x :: P(addCall(x)) && P(removeCall(x))
    ensures forall c :: c in PassCalls(p, dryRun, addCall, removeCall) ==> P(c)
  {
    var ma, mr := MapSeq(addCall, Ledger(p.added)), MapSeq(removeCall, Ledger(p.removed));
    forall c | c in ma + mr ensures P(c) {
      var k :| 0 <= k < |ma + mr| && (ma + mr)[k] == c;
      if k < |ma| {
        assert c == addCall(Ledger(p.added)[k]);
      } else {
        assert c == removeCall(Ledger(p.removed)[k - |ma|]);
      }
    }
  }

  /** A pass that stopped at an addition calls the recorded additions and
      then the failing one. */
  lemma FailedAddCalls<T, K>(p: Pass<T>, addCall: T -> K, removeCall: T -> K)
    requires p.failure.Some? && p.failure.value.FailedAdd? && p.removed.None?
    ensures PassCalls(p, false, addCall, removeCall)
              == MapSeq(addCall, Ledger(p.added)) + [addCall(p.failure.value.item)]
  {
    assert MapSeq(removeCall, Ledger(p.removed)) == [];
    assert MapSeq(addCall, Ledger(p.added)) + [] == MapSeq(addCall, Ledger(p.added));
  }

  /** A pass that stopped at a removal calls every recorded addition, the
      recorded removals, then the failing one. */
  lemma FailedRemoveCalls<T, K>(p: Pass<T>, addCall: T -> K, removeCall: T -> K)
    requires p.failure.Some? && p.failure.value.FailedRemove?
    ensures PassCalls(p, false, addCall, removeCall)
              == MapSeq(addCall, Ledger(p.added)) + MapSeq(removeCall, Ledger(p.removed))
                 + [removeCall(p.failure.value.item)]
  {
  }

  /** A pass without failure calls exactly what it recorded. */
  lemma FinishedCalls<T, K>(p: Pass<T>, addCall: T -> K, removeCall: T -> K)
    requires p.failure.None?
    ensures PassCalls(p, false, addCall, removeCall)
              == MapSeq(addCall, Ledger(p.added)) + MapSeq(removeCall, Ledger(p.removed))
  {
    var m := MapSeq(addCall, Ledger(p.added)) + MapSeq(removeCall, Ledger(p.removed));
    assert m + [] == m;
  }

  /** How one remote call acts on the observed set of one resource. */
  datatype Op<T> = Insert(item: T) | Erase(item: T) | Untouched

  function ApplyOp<T>(s: set<T>, o: Op<T>): set<T>
  {
    match o
    case Insert(x) => s + {x}
    case Erase(x) => s - {x}
    case Untouched => s
  }

  /** The remote set after a trace of calls: each call that succeeds acts
      as `target` says, a failed call changes nothing. */
  function Effect<T, K>(s: set<T>, calls: seq<K>, ok: K -> bool, target: K -> Op<T>): set<T>
    decreases |calls|
  {
    if calls == [] then s
    else Effect(if ok(calls[0]) then ApplyOp(s, target(calls[0])) else s, calls[1..], ok, target)
  }

  lemma {:induction false} EffectAppend<T, K>(s: set<T>, a: seq<K>, b: seq<K>, ok: K -> bool, target: K -> Op<T>)
    ensures Effect(s, a + b, ok, target) == Effect(Effect(s, a, ok, target), b, ok, target)
    decreases |a|
  {
    if a == [] {
      assert a + b == b;
    } else {
      assert (a + b)[1..] == a[1..] + b;
      var s' := if ok(a[0]) then ApplyOp(s, target(a[0])) else s;
      EffectAppend(s', a[1..], b, ok, target);
    }
  }

  lemma {:induction false} EffectOfInserts<T, K>(s: set<T>, l: seq<T>, call: T -> K, ok: K -> bool, target: K -> Op<T>)
    requires forall x :: x in l ==> ok(call(x)) && target(call(x)) == Insert(x)
    ensures Effect(s, MapSeq(call, l), ok, target) == s + Elems(l)
    decreases |l|
  {
    if l != [] {
      assert MapSeq(call, l)[1..] == MapSeq(call, l[1..]);
      assert l[0] in l;
      EffectOfInserts(s + {l[0]}, l[1..], call, ok, target);
      assert Elems(l) == {l[0]} + Elems(l[1..]) by {
        assert l == [l[0]] + l[1..];
      }
    }
  }

  lemma {:induction false} EffectOfDeletes<T, K>(s: set<T>, l: seq<T>, call: T -> K, ok: K -> bool, target: K -> Op<T>)
    requires forall x :: x in l ==> ok(call(x)) && target(call(x)) == Erase(x)
    ensures Effect(s, MapSeq(call, l), ok, target) == s - Elems(l)
    decreases |l|
  {
    if l != [] {
      assert MapSeq(call, l)[1..] == MapSeq(call, l[1..]);
      assert l[0] in l;
      EffectOfDeletes(s - {l[0]}, l[1..], call, ok, target);
      assert Elems(l) == {l[0]} + Elems(l[1..]) by {
        assert l == [l[0]] + l[1..];
      }
    }
  }

  /** The calls of a pass went as its ledger says: each recorded item's
      call succeeded and the failing call, if any, did not. */
  predicate Truthful<T(==), K>(p: Pass<T>, addCall: T -> K, removeCall: T -> K, ok: K -> bool)
  {
    && (forall x :: x in Ledger(p.added) ==> ok(addCall(x)))
    && (forall x :: x in Ledger(p.removed) ==> ok(removeCall(x)))
    && (p.failure.Some? && p.failure.value.FailedAdd? ==> !ok(addCall(p.failure.value.item)))
    && (p.failure.Some? && p.failure.value.FailedRemove? ==> !ok(removeCall(p.failure.value.item)))
  }

  /** A pass run against the oracle that decides its calls is truthful. */
  lemma PassTruthful<T, K>(d: Diff<T>, addCall: T -> K, removeCall: T -> K, ok: K -> bool)
    ensures Truthful(AddThenRemove(d, false, Through(ok, addCall), Through(ok, removeCall)), addCall, removeCall, ok)
  {
    var p := AddThenRemove(d, false, Through(ok, addCall), Through(ok, removeCall));
    forall x | x in Ledger(p.added) ensures ok(addCall(x)) {
      assert Through(ok, addCall)(x);
    }
    forall x | x in Ledger(p.removed) ensures ok(removeCall(x)) {
      assert Through(ok, removeCall)(x);
    }
  }

  /** A finished pass whose every call went through is truthful. */
  lemma TruthfulWhenAllOk<T, K>(p: Pass<T>, addCall: T -> K, removeCall: T -> K, ok: K -> bool)
    requires p.failure.None?
    requires forall c :: c in PassCalls(p, false, addCall, removeCall) ==> ok(c)
    ensures Truthful(p, addCall, removeCall, ok)
  {
    FinishedCalls(p, addCall, removeCall);
    var a, r := Ledger(p.added), Ledger(p.removed);
    var ma, mr := MapSeq(addCall, a), MapSeq(removeCall, r);
    forall x | x in a ensures ok(addCall(x)) {
      var k :| 0 <= k < |a| && a[k] == x;
      assert (ma + mr)[k] == addCall(x);
    }
    forall x | x in r ensures ok(removeCall(x)) {
      var k :| 0 <= k < |r| && r[k] == x;
      assert (ma + mr)[|ma| + k] == removeCall(x);
    }
  }

  /** The ledger of a truthful pass is exactly what changed remotely: the
      observed set afterwards is the old one plus what `add` recorded, minus
      what `remove` recorded, failed pass or not. */
  lemma PassEffect<T, K>(s: set<T>, p: Pass<T>, addCall: T -> K, removeCall: T -> K, ok: K -> bool, target: K -> Op<T>)
    requires forall x :: target(addCall(x)) == Insert(x)
    requires forall x :: target(removeCall(x)) == Erase(x)
    requires Truthful(p, addCall, removeCall, ok)
    ensures Effect(s, PassCalls(p, false, addCall, removeCall), ok, target)
              == (s + Elems(Ledger(p.added))) - Elems(Ledger(p.removed))
  {
    var a, r := Ledger(p.added), Ledger(p.removed);
    var ma, mr := MapSeq(addCall, a), MapSeq(removeCall, r);
    var f := PassCalls(p, false, addCall, removeCall)[|ma| + |mr|..];
    assert PassCalls(p, false, addCall, removeCall) == ma + mr + f;
    EffectAppend(s, ma + mr, f, ok, target);
    EffectAppend(s, ma, mr, ok, target);
    EffectOfInserts(s, a, addCall, ok, target);
    EffectOfDeletes(s + Elems(a), r, removeCall, ok, target);
    if p.failure.Some? {
      assert |f| == 1 && !ok(f[0]);
      assert f[1..] == [];
    }
  }

  /** A calls trace that leaves one resource alone leaves its set as it was. */
  lemma {:induction false} EffectUntouched<T, K>(s: set<T>, calls: seq<K>, ok: K -> bool, target: K -> Op<T>)
    requires forall c :: c in calls ==> target(c) == Untouched
    ensures Effect(s, calls, ok, target) == s
    decreases |calls|
  {
    if calls != [] {
      assert calls[0] in calls;
      forall c | c in calls[1..] ensures target(c) == Untouched {
        assert c in calls;
      }
      EffectUntouched(s, calls[1..], ok, target);
    }
  }

  /** The oracle of a state that never looks at a call's response. */
  function Unchecked<T>(): T -> bool
  {
    x => true
  }

  /** When every planned call would go through, a real batch records the
      same items, in the same order, as a dry run. */
  lemma PhaseAllOk<T>(planned: set<T>, ok: T -> bool)
    requires forall x :: x in planned ==> ok(x)
    ensures Phase(planned, false, ok) == Phase(planned, true, ok)
  {
    var order := Enumerate(planned);
    assert RunBatch(order, false, ok).failed.None?;
  }

  /** ... and so does a whole pass. */
  lemma PassAllOk<T>(d: Diff<T>, okAdd: T -> bool, okRemove: T -> bool)
    requires forall x :: x in d.toAdd ==> okAdd(x)
    requires forall x :: x in d.toRemove ==> okRemove(x)
    ensures AddThenRemove(d, false, okAdd, okRemove) == AddThenRemove(d, true, okAdd, okRemove)
  {
    PhaseAllOk(d.toAdd, okAdd);
    PhaseAllOk(d.toRemove, okRemove);
  }

  /** A real pass, failed or not, changes the remote set by exactly its
      ledgers. */
  lemma RealPassEffect<T, K>(s: set<T>, d: Diff<T>, addCall: T -> K, removeCall: T -> K, ok: K -> bool, target: K -> Op<T>)
    requires forall x :: target(addCall(x)) == Insert(x)
    requires forall x :: target(removeCall(x)) == Erase(x)
    ensures var p := AddThenRemove(d, false, Through(ok, addCall), Through(ok, removeCall));
            Effect(s, PassCalls(p, false, addCall, removeCall), ok, target)
              == (s + Elems(Ledger(p.added))) - Elems(Ledger(p.removed))
  {
    PassTruthful(d, addCall, removeCall, ok);
    PassEffect(s, AddThenRemove(d, false, Through(ok, addCall), Through(ok, removeCall)), addCall, removeCall, ok, target);
  }

  /** A pass that ran to the end without dry run converges: strict mode
      leaves exactly the desired set, lenient mode the old set plus it. */
  lemma PassConverges<T, K>(desired: set<T>, current: set<T>, strict: bool, addCall: T -> K, removeCall: T -> K, ok: K -> bool, target: K -> Op<T>)
    requires forall x :: target(addCall(x)) == Insert(x)
    requires forall x :: target(removeCall(x)) == Erase(x)
    requires AddThenRemove(SetDiff(desired, current, strict), false, Through(ok, addCall), Through(ok, removeCall)).failure.None?
    ensures var p := AddThenRemove(SetDiff(desired, current, strict), false, Through(ok, addCall), Through(ok, removeCall));
            var after := Effect(current, PassCalls(p, false, addCall, removeCall), ok, target);
            && (strict ==> after == desired)
            && (!strict ==> after == current + desired)
  {
    var d := SetDiff(desired, current, strict);
    var p := AddThenRemove(d, false, Through(ok, addCall), Through(ok, removeCall));
    PassTruthful(d, addCall, removeCall, ok);
    PassEffect(current, p, addCall, removeCall, ok, target);
    PlanConverges(desired, current, strict);
  }

  /** Applying a whole plan to the observed set yields the desired set under
      strict mode and the union under lenient mode. */
  lemma PlanConverges<T>(desired: set<T>, current: set<T>, strict: bool)
    ensures var d := SetDiff(desired, current, strict);
            && (strict ==> (current + d.toAdd) - d.toRemove == desired)
            && (!strict ==> (current + d.toAdd) - d.toRemove == current + desired)
  {
  }

  /** Once the observed set agrees with the desired one as a finished pass
      leaves it, the next pass plans nothing and records nothing. */
  lemma PassIdempotent<T>(desired: set<T>, current: set<T>, strict: bool, dryRun: bool, okAdd: T -> bool, okRemove: T -> bool)
    requires strict ==> current == desired
    requires !strict ==> desired <= current
    ensures SetDiff(desired, current, strict) == Diff({}, {})
    ensures AddThenRemove(SetDiff(desired, current, strict), dryRun, okAdd, okRemove) == Pass(None, None, None)
  {
  }
}
