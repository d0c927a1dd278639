/** Every history of requests keeps the registry and the disk in agreement. */
module History {
  import opened Platform
  import opened PkgText
  import opened Unpack
  import opened Registry
  import opened InstallModel
  import opened InstallSpec
  import opened InstallRuns
  import opened InstallSafety
  import opened InstallLaws
  import opened UninstallModel

  /** The bytes that files take on the disk. */
  function TotalSize(disk: map<string, int>, files: seq<string>): int
    requires forall i :: 0 <= i < |files| ==> Fold(files[i]) in disk
  {
    if files == [] then 0 else disk[Fold(files[0])] + TotalSize(disk, files[1..])
  }

  predicate OnDisk(disk: map<string, int>, files: seq<string>) {
    forall i :: 0 <= i < |files| ==> Fold(files[i]) in disk
  }

  /** The component's files are different files, they exist, and the registered size
      is the size of what is there. */
  ghost predicate Held(disk: map<string, int>, c: Component) {
    Fresh(c.files, {}) && OnDisk(disk, c.files) && c.size == TotalSize(disk, c.files)
  }

  predicate IsReference(comps: Components, id: int) {
    id in comps && comps[id].softwareType == SOFTWARE_TYPE
  }

  ghost predicate Disjoint(comps: Components) {
    forall a, b :: IsReference(comps, a) && IsReference(comps, b) && a != b ==> KeysOf(comps[a].files) !! KeysOf(comps[b].files)
  }

  ghost predicate Agreement(w: World) {
    && IdsBelow(w.scr)
    && (forall id :: IsReference(w.scr.comps, id) ==> Held(w.disk, w.scr.comps[id]))
    && Disjoint(w.scr.comps)
  }

  // ---------------------------------------------------------------------------
  // Taking a component away, and adding one
  // ---------------------------------------------------------------------------

  lemma {:induction false} TotalKept(before: map<string, int>, after: map<string, int>, files: seq<string>)
    requires OnDisk(before, files)
    requires forall k :: k in KeysOf(files) ==> k in after && k in before && after[k] == before[k]
    ensures OnDisk(after, files) && TotalSize(after, files) == TotalSize(before, files)
    decreases |files|
  {
    hide Fold;
    if files != [] {
      KeysCons(files);
      assert files == [files[0]] + files[1..];
      assert Fold(files[0]) in KeysOf(files);
      TotalKept(before, after, files[1..]);
    }
  }

  lemma HeldKept(before: map<string, int>, after: map<string, int>, c: Component)
    requires Held(before, c)
    requires forall k :: k in KeysOf(c.files) && k in before ==> k in after && after[k] == before[k]
    ensures Held(after, c)
  {
    hide Fold, KeysOf, Fresh, TotalSize;
    KeysOnDisk(before, c.files);
    TotalKept(before, after, c.files);
  }

  lemma KeysOnDisk(disk: map<string, int>, files: seq<string>)
    requires OnDisk(disk, files)
    ensures forall k :: k in KeysOf(files) ==> k in disk
  {
    hide Fold;
  }

  /** Removing a reference component with its files leaves the others as they are. */
  lemma RemovedAgrees(w: World, id: int)
    requires Agreement(w) && (id in w.scr.comps ==> IsReference(w.scr.comps, id))
    ensures Agreement(Removed(w, id))
  {
    hide Held, KeysOf;
    var next := Removed(w, id);
    forall a | IsReference(next.scr.comps, a) ensures Held(next.disk, next.scr.comps[a]) {
      assert IsReference(w.scr.comps, a) && a != id;
      assert id in w.scr.comps ==> KeysOf(w.scr.comps[a].files) !! KeysOf(w.scr.comps[id].files);
      NoFilesNoKeys();
      HeldKept(w.disk, next.disk, w.scr.comps[a]);
    }
  }

  lemma NoFilesNoKeys()
    ensures KeysOf([]) == {}
  {
  }

  lemma {:induction false} TotalOfNew(disk: map<string, int>, files: seq<string>)
    requires forall i :: 0 <= i < |files| ==> Fold(files[i]) in disk && disk[Fold(files[i])] == FILE_SIZE
    ensures TotalSize(disk, files) == FILE_SIZE * |files|
    decreases |files|
  {
    hide Fold;
    if files != [] {
      TotalOfNew(disk, files[1..]);
    }
  }

  lemma NewHeld(disk: map<string, int>, rec: Record, inactive: bool)
    requires Complete(rec) && Fresh(rec.files, disk.Keys)
    ensures Held(Laid(disk, rec.files), ComponentOf(rec, inactive))
  {
    hide Fold, Complete, Locs;
    TotalOfNew(Laid(disk, rec.files), rec.files);
  }

  /** Adding a component whose files are new. */
  lemma AddedAgrees(w: World, rec: Record, inactive: bool)
    requires Agreement(w) && Complete(rec) && Fresh(rec.files, w.disk.Keys)
    ensures Agreement(Added(w, rec, inactive))
  {
    hide Held, KeysOf, Complete, Locs, ComponentOf, Fresh, Laid;
    var next := Added(w, rec, inactive);
    var id := w.scr.nextId;
    NewHeld(w.disk, rec, inactive);
    FreshKeys(rec.files, w.disk.Keys);
    LaidKeeps(w.disk, rec.files);
    ComponentFiles(rec, inactive);
    forall a | IsReference(next.scr.comps, a)
      ensures Held(next.disk, next.scr.comps[a])
      ensures a != id ==> KeysOf(next.scr.comps[a].files) !! KeysOf(rec.files)
    {
      if a != id {
        assert IsReference(w.scr.comps, a);
        HeldOnDisk(w.disk, w.scr.comps[a]);
        HeldKept(w.disk, next.disk, w.scr.comps[a]);
      }
    }
    forall a, b | IsReference(next.scr.comps, a) && IsReference(next.scr.comps, b) && a != b
      ensures KeysOf(next.scr.comps[a].files) !! KeysOf(next.scr.comps[b].files)
    {
      assert a != id ==> IsReference(w.scr.comps, a);
      assert b != id ==> IsReference(w.scr.comps, b);
    }
  }

  lemma ComponentFiles(rec: Record, inactive: bool)
    requires Complete(rec)
    ensures ComponentOf(rec, inactive).files == rec.files
  {
  }

  lemma LaidKeeps(disk: map<string, int>, files: seq<string>)
    ensures forall k :: k in disk && k !in KeysOf(files) ==> k in Laid(disk, files) && Laid(disk, files)[k] == disk[k]
  {
  }

  lemma HeldOnDisk(disk: map<string, int>, c: Component)
    requires Held(disk, c)
    ensures KeysOf(c.files) <= disk.Keys
  {
    hide Fold;
  }

  // ---------------------------------------------------------------------------
  // Installing
  // ---------------------------------------------------------------------------

  lemma OneAgrees(env: Env, i: int, view: World, temps: Store, fileName: string)
    requires Lawful(env) && Agreement(view) && InstallOne(env, i, view, temps, fileName).Ok?
    ensures Agreement(InstallOne(env, i, view, temps, fileName).value)
  {
    hide Lawful, InstallOne, Agreement, Lookup, RecordAt, Named, Locs, Fresh, Added, Removed;
    OneReplaces(env, i, view, temps, fileName);
    var rec := RecordAt(temps, fileName).value;
    var found := Lookup(env, view.scr.comps, rec);
    NoDowngrade(env, view.scr.comps, rec);
    ClearedIsRemoved(view, found);
    if found.status == UPGRADE {
      RemovedAgrees(view, found.id);
    }
    AddedAgrees(Cleared(view, found), rec, env.inactive);
  }

  lemma ClearedIsRemoved(view: World, found: Found)
    ensures Cleared(view, found) == if found.status == UPGRADE then Removed(view, found.id) else view
  {
  }

  lemma {:induction false} AllAgree(env: Env, list: seq<Listed>, i: nat, view: World, temps: Store)
    requires Lawful(env) && i <= |list| && Agreement(view) && InstallFrom(env, list, i, view, temps).Ok?
    ensures Agreement(InstallFrom(env, list, i, view, temps).value)
    decreases |list| - i
  {
    hide Lawful, InstallOne, Agreement;
    if i < |list| {
      OneAgrees(env, i, view, temps, list[i].fileName);
      AllAgree(env, list, i + 1, InstallOne(env, i, view, temps, list[i].fileName).value, temps);
    }
  }

  /** The other installers keep to their own files. */
  ghost predicate Considerate(env: Env) {
    forall i, w :: Agreement(w) ==> Agreement(env.nested(i).effect(w))
  }

  lemma {:induction false} NestedAgree(env: Env, k: nat, w: World)
    requires Considerate(env) && Agreement(w)
    ensures Agreement(AfterNested(env, k, w))
  {
    hide Agreement;
    if k > 0 {
      NestedAgree(env, k - 1, w);
    }
  }

  // ---------------------------------------------------------------------------
  // Histories
  // ---------------------------------------------------------------------------

  /** A request and the number of executions it gets before the client or the system
      takes the task away; more than it needs means that it ends by itself. */
  datatype Request =
    | Installing(env: Env, executions: nat)
    | Uninstalling(req: Removing, executions: nat)
    | Setting(id: int, activated: bool)

  ghost function After(r: Request, w: World): World {
    match r
    case Installing(env, n) => Steps(env, Running(START, w), n).world
    case Uninstalling(req, n) => USteps(req, StartUninstall(req, w), n).world
    case Setting(id, activated) => (match SetState(w, id, activated) case Ok(next) => next case Fail(_) => w)
  }

  /** The framework sends the plug-in components of its own type only. */
  ghost predicate Proper(r: Request, w: World) {
    match r
    case Installing(env, _) => Lawful(env) && Considerate(env)
    case Uninstalling(req, _) => req.id in w.scr.comps ==> IsReference(w.scr.comps, req.id)
    case Setting(_, _) => true
  }

  ghost predicate AllProper(requests: seq<Request>, w: World)
    decreases |requests|
  {
    requests != [] ==> Proper(requests[0], w) && AllProper(requests[1..], After(requests[0], w))
  }

  ghost function AfterAll(requests: seq<Request>, w: World): World
    decreases |requests|
  {
    if requests == [] then w else AfterAll(requests[1..], After(requests[0], w))
  }

  lemma InstallAgrees(env: Env, w: World, n: nat)
    requires Lawful(env) && Considerate(env) && Agreement(w)
    ensures Agreement(Steps(env, Running(START, w), n).world)
  {
    hide Lawful, Considerate, Agreement, Steps, Install, ListOf, TempsOf, InstallFrom, Ordered;
    var c := Steps(env, Running(START, w), n);
    if c.Done? {
      DoneMeansSuccess(env, w, n);
      var f, root := SuccessParts(env, w);
      OrderedBounds(ListOf(env, w), f, root);
      NestedAgree(env, f, w);
      AllAgree(env, ListOf(env, w), f, AfterNested(env, f, w), TempsOf(env, w));
    } else {
      var k := Unfinished(env, w, n);
      NestedAgree(env, k, w);
    }
  }

  lemma SettingAgrees(w: World, id: int, activated: bool)
    requires Agreement(w) && SetState(w, id, activated).Ok?
    ensures Agreement(SetState(w, id, activated).value)
  {
    hide KeysOf, Fresh, OnDisk, TotalSize;
    var next := SetState(w, id, activated).value;
    forall a | IsReference(next.scr.comps, a)
      ensures IsReference(w.scr.comps, a) && next.scr.comps[a].files == w.scr.comps[a].files
      ensures Held(next.disk, next.scr.comps[a])
    {
      assert Held(w.disk, w.scr.comps[a]);
    }
  }

  lemma OneRequest(r: Request, w: World)
    requires Proper(r, w) && Agreement(w)
    ensures Agreement(After(r, w))
  {
    hide Lawful, Considerate, Agreement, Steps, USteps, SetState, Removed;
    match r
    case Installing(env, n) => InstallAgrees(env, w, n);
    case Uninstalling(req, n) =>
      UninstallAllOrNothing(req, w, n);
      RemovedAgrees(w, req.id);
    case Setting(id, activated) =>
      if SetState(w, id, activated).Ok? {
        SettingAgrees(w, id, activated);
      }
  }

  /** Over every history of installations, uninstallations and activations, finished,
      failed or cut short: components share no file, each registered file exists, and
      each registered size is the number of bytes that its files take. */
  lemma {:induction false} AgreementForever(requests: seq<Request>, w: World)
    requires AllProper(requests, w) && Agreement(w)
    ensures Agreement(AfterAll(requests, w))
    decreases |requests|
  {
    hide Agreement, Proper, After;
    if requests != [] {
      OneRequest(requests[0], w);
      AgreementForever(requests[1..], After(requests[0], w));
    }
  }
}
