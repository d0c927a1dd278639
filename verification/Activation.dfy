/** Whether a component is active: what one request does to it, and what a history
    leaves. */
module Activation {
  import opened Platform
  import opened PkgText
  import opened Unpack
  import opened Registry
  import opened InstallModel
  import opened InstallSpec
  import opened InstallRuns
  import opened InstallSafety
  import opened InstallLaws
  import opened UninstallModel
  import opened History

  /** Activate and Deactivate: the registered component with the identifier gets exactly
      the requested state and keeps everything else, and nothing else changes; the null
      identifier and a missing component are refused. */
  lemma SetStateMeans(w: World, id: int, activated: bool)
    ensures id == 0 ==> SetState(w, id, activated) == Fail(Leave(ERR_ARGUMENT))
    ensures id != 0 && id !in w.scr.comps ==> SetState(w, id, activated) == Fail(Leave(ERR_NOT_FOUND))
    ensures id != 0 && id in w.scr.comps ==>
              && SetState(w, id, activated).Ok?
              && var next := SetState(w, id, activated).value;
                 && next.disk == w.disk && next.scr.nextId == w.scr.nextId && next.scr.comps.Keys == w.scr.comps.Keys
                 && (forall a :: a in w.scr.comps && a != id ==> next.scr.comps[a] == w.scr.comps[a])
                 && var (c, d) := (w.scr.comps[id], next.scr.comps[id]);
                    && d.activated == activated
                    && d.locs == c.locs && d.softwareType == c.softwareType && d.version == c.version && d.files == c.files && d.size == c.size
  {
  }

  // ---------------------------------------------------------------------------
  // Histories
  // ---------------------------------------------------------------------------

  /** Every reference component was there before, in the same state. */
  ghost predicate SameStates(before: Components, after: Components) {
    forall id :: IsReference(after, id) ==> IsReference(before, id) && after[id].activated == before[id].activated
  }

  /** The other installers do not register or switch reference components, and the
      registry does not give them an identifier twice. */
  ghost predicate HandsOff(env: Env) {
    forall i, w: World :: IdsBelow(w.scr) ==>
      && IdsBelow(env.nested(i).effect(w).scr) && SameStates(w.scr.comps, env.nested(i).effect(w).scr.comps)
      && env.nested(i).effect(w).scr.nextId >= w.scr.nextId
  }

  lemma HandsOffAt(env: Env, i: int, w: World)
    requires HandsOff(env) && IdsBelow(w.scr)
    ensures IdsBelow(env.nested(i).effect(w).scr) && SameStates(w.scr.comps, env.nested(i).effect(w).scr.comps)
    ensures env.nested(i).effect(w).scr.nextId >= w.scr.nextId
  {
    hide IdsBelow, SameStates;
    var next := env.nested(i).effect(w);
  }

  lemma {:induction false} NestedStates(env: Env, k: nat, w: World)
    requires HandsOff(env) && IdsBelow(w.scr)
    ensures IdsBelow(AfterNested(env, k, w).scr) && SameStates(w.scr.comps, AfterNested(env, k, w).scr.comps)
    ensures AfterNested(env, k, w).scr.nextId >= w.scr.nextId
  {
    hide HandsOff, IdsBelow;
    if k > 0 {
      NestedStates(env, k - 1, w);
      HandsOffAt(env, k - 1, AfterNested(env, k - 1, w));
    }
  }

  /** A reference component is an old one in its old state, or a new one in the state that
      the client asked for. */
  ghost predicate OldOrNew(before: Components, after: Components, activated: bool) {
    forall id :: IsReference(after, id) ==>
      if IsReference(before, id) then after[id].activated == before[id].activated else after[id].activated == activated
  }

  lemma OneState(env: Env, view: World, next: World, rec: Record, found: Found)
    requires IdsBelow(view.scr) && Replaces(env, view, next, rec, found)
    ensures IdsBelow(next.scr) && OldOrNew(view.scr.comps, next.scr.comps, !env.inactive)
    ensures forall id :: IsReference(next.scr.comps, id) && id < view.scr.nextId ==> IsReference(view.scr.comps, id)
  {
    hide Lookup, Complete, ComponentOf, Laid, KeysOf, FilesOf, Fresh, Named, Locs;
    FieldsOf(rec, env.inactive);
  }

  lemma {:induction false} AllStates(env: Env, list: seq<Listed>, i: nat, view: World, temps: Store)
    requires i <= |list| && InstallFrom(env, list, i, view, temps).Ok? && IdsBelow(view.scr)
    ensures var last := InstallFrom(env, list, i, view, temps).value;
            && IdsBelow(last.scr) && OldOrNew(view.scr.comps, last.scr.comps, !env.inactive)
            && forall id :: IsReference(last.scr.comps, id) && id < view.scr.nextId ==> IsReference(view.scr.comps, id)
    decreases |list| - i
  {
    hide InstallOne, Replaces, RecordAt, Lookup;
    if i < |list| {
      var next := InstallOne(env, i, view, temps, list[i].fileName).value;
      OneReplaces(env, i, view, temps, list[i].fileName);
      var rec := RecordAt(temps, list[i].fileName).value;
      OneState(env, view, next, rec, Lookup(env, view.scr.comps, rec));
      OneAdds(env, view, next, rec, Lookup(env, view.scr.comps, rec));
      AllStates(env, list, i + 1, next, temps);
    }
  }

  lemma InstallStates(env: Env, w: World, n: nat)
    requires Lawful(env) && HandsOff(env) && IdsBelow(w.scr)
    ensures var now := Steps(env, Running(START, w), n).world.scr;
            IdsBelow(now) && OldOrNew(w.scr.comps, now.comps, !env.inactive)
  {
    hide Lawful, HandsOff, Steps, Install, ListOf, TempsOf, InstallFrom, Ordered;
    var c := Steps(env, Running(START, w), n);
    if c.Done? {
      DoneMeansSuccess(env, w, n);
      var f, root := SuccessParts(env, w);
      OrderedBounds(ListOf(env, w), f, root);
      NestedStates(env, f, w);
      AllStates(env, ListOf(env, w), f, AfterNested(env, f, w), TempsOf(env, w));
    } else {
      var k := Unfinished(env, w, n);
      NestedStates(env, k, w);
    }
  }

  /** The state that a component is to have after a history: that of the last request to
      activate or deactivate it while it was registered, else the one that the request
      that registered it asked for, else the one it started with. */
  ghost predicate Wanted(requests: seq<Request>, w: World, id: int)
    decreases |requests|
  {
    if requests == [] then id in w.scr.comps && w.scr.comps[id].activated
    else
      var (front, last) := (requests[..|requests| - 1], requests[|requests| - 1]);
      if last.Setting? && last.id == id then last.activated
      else if last.Installing? && !IsReference(AfterAll(front, w).scr.comps, id) then !last.env.inactive
      else Wanted(front, w, id)
  }

  ghost predicate AllHandsOff(requests: seq<Request>) {
    forall i :: 0 <= i < |requests| && requests[i].Installing? ==> Lawful(requests[i].env) && HandsOff(requests[i].env)
  }

  lemma {:induction false} AfterLast(requests: seq<Request>, r: Request, w: World)
    ensures AfterAll(requests + [r], w) == After(r, AfterAll(requests, w))
    decreases |requests|
  {
    hide After;
    if requests == [] {
      assert [] + [r] == [r] && [r][1..] == [];
      assert AfterAll([], After(r, w)) == After(r, w);
    } else {
      assert (requests + [r])[0] == requests[0] && (requests + [r])[1..] == requests[1..] + [r];
      AfterLast(requests[1..], r, After(requests[0], w));
    }
  }

  /** What one request does to the states of reference components. */
  lemma OneRequestStates(r: Request, w: World)
    requires IdsBelow(w.scr) && (r.Installing? ==> Lawful(r.env) && HandsOff(r.env))
    ensures var next := After(r, w).scr;
            && IdsBelow(next)
            && forall id :: IsReference(next.comps, id) && id != 0 ==>
                 next.comps[id].activated == if r.Setting? && r.id == id then r.activated
                                             else if r.Installing? && !IsReference(w.scr.comps, id) then !r.env.inactive
                                             else IsReference(w.scr.comps, id) && w.scr.comps[id].activated
    ensures !r.Installing? ==> forall id :: IsReference(After(r, w).scr.comps, id) ==> IsReference(w.scr.comps, id)
  {
    hide Lawful, HandsOff, Steps, USteps, SetState, KeysOf;
    match r
    case Installing(env, n) => InstallStates(env, w, n);
    case Uninstalling(req, n) => UninstallAllOrNothing(req, w, n);
    case Setting(id, activated) => SetStateMeans(w, id, activated);
  }

  /** Over every history, a reference component that is there is in the state that was
      last asked for. */
  lemma {:induction false} StateForever(requests: seq<Request>, w: World, id: int)
    requires IdsBelow(w.scr) && AllHandsOff(requests) && id != 0
    ensures IdsBelow(AfterAll(requests, w).scr)
    ensures IsReference(AfterAll(requests, w).scr.comps, id) ==>
              AfterAll(requests, w).scr.comps[id].activated == Wanted(requests, w, id)
    decreases |requests|
  {
    hide After, Lawful, HandsOff, IdsBelow;
    if requests != [] {
      var (front, last) := (requests[..|requests| - 1], requests[|requests| - 1]);
      assert requests == front + [last];
      assert AllHandsOff(front);
      StateForever(front, w, id);
      AfterLast(front, last, w);
      hide AfterAll;
      OneRequestStates(last, AfterAll(front, w));
    }
  }
}
