/** What installing a package amounts to, said without steps: one component at a
    time, on the state that the open transactions show. */
module InstallSpec {
  import opened Platform
  import opened PkgText
  import opened Unpack
  import opened PkgTree
  import opened Registry
  import opened InstallModel

  function KeysOf(files: seq<string>): (r: set<string>)
    ensures forall i :: 0 <= i < |files| ==> Fold(files[i]) in r
    ensures forall k :: k in r ==> exists i :: 0 <= i < |files| && Fold(files[i]) == k
  {
    set i | 0 <= i < |files| :: Fold(files[i])
  }

  /** No file's path is taken, and no two files share one. */
  predicate Fresh(files: seq<string>, taken: set<string>) {
    && (forall i :: 0 <= i < |files| ==> Fold(files[i]) !in taken)
    && forall i, j :: 0 <= i < j < |files| ==> Fold(files[i]) != Fold(files[j])
  }

  function Laid(disk: map<string, int>, files: seq<string>): map<string, int> {
    disk + map k | k in KeysOf(files) :: FILE_SIZE
  }

  /** What a package is registered as. */
  function ComponentOf(rec: Record, inactive: bool): Component
    requires Complete(rec)
  {
    Component(Locs(rec), SOFTWARE_TYPE, rec.version, rec.files, FILE_SIZE * |rec.files|, !inactive)
  }

  /** The state without the component that is replaced and its files. */
  function Cleared(view: World, found: Found): World {
    if found.status == UPGRADE then
      World(view.disk - KeysOf(FilesOf(view.scr, found.id)), view.scr.(comps := view.scr.comps - {found.id}))
    else view
  }

  function Added(view: World, rec: Record, inactive: bool): World
    requires Complete(rec)
  {
    World(Laid(view.disk, rec.files),
          Scr(view.scr.comps[view.scr.nextId := ComponentOf(rec, inactive)], view.scr.nextId + 1))
  }

  /** Whether the i-th package of the list, with this text, may be installed. */
  function Verdict(env: Env, i: int, view: World, temps: Store, rec: Record): Outcome<()>
    requires Complete(rec)
  {
    var found := Lookup(env, view.scr.comps, rec);
    if found.status == ALREADY_INSTALLED then Fail(Leave(ERR_SAME_VERSION))
    else if found.status == NEWER_INSTALLED then Fail(Leave(ERR_NEWER_VERSION))
    else if !env.silent && !env.confirm(i) then Fail(Leave(ERR_CANCEL))
    else if !Named(Locs(rec)) then Fail(Leave(ERR_ARGUMENT))
    else if !Fresh(rec.files, Cleared(view, found).disk.Keys + temps.Keys) then Fail(Leave(ERR_ALREADY_EXISTS))
    else Ok(())
  }

  function RecordAt(temps: Store, fileName: string): (r: Outcome<Record>)
    ensures r.Ok? ==> Complete(r.value)
  {
    if Fold(fileName) in temps then Parse(temps[Fold(fileName)]) else Fail(Leave(ERR_NOT_FOUND))
  }

  function InstallOne(env: Env, i: int, view: World, temps: Store, fileName: string): Outcome<World>
  {
    var rec :- RecordAt(temps, fileName);
    var _ :- Verdict(env, i, view, temps, rec);
    Ok(Added(Cleared(view, Lookup(env, view.scr.comps, rec)), rec, env.inactive))
  }

  /** The number of executions that one component takes. */
  function CostOne(env: Env, i: int, view: World, temps: Store, fileName: string): nat
    requires InstallOne(env, i, view, temps, fileName).Ok?
  {
    var rec := RecordAt(temps, fileName).value;
    var found := Lookup(env, view.scr.comps, rec);
    |rec.files| + 5 + if found.status == UPGRADE then |FilesOf(view.scr, found.id)| + 2 else 0
  }

  /** Installing the packages from the i-th on. */
  function InstallFrom(env: Env, list: seq<Listed>, i: nat, view: World, temps: Store): Outcome<World>
    requires i <= |list|
    decreases |list| - i
  {
    if i == |list| then Ok(view) else
    var next :- InstallOne(env, i, view, temps, list[i].fileName);
    InstallFrom(env, list, i + 1, next, temps)
  }

  function CostFrom(env: Env, list: seq<Listed>, i: nat, view: World, temps: Store): nat
    requires i <= |list| && InstallFrom(env, list, i, view, temps).Ok?
    decreases |list| - i
  {
    if i == |list| then 0
    else
      CostOne(env, i, view, temps, list[i].fileName)
      + CostFrom(env, list, i + 1, InstallOne(env, i, view, temps, list[i].fileName).value, temps)
  }

  /** The identifiers told to the client: those of root packages. */
  function IdsFrom(list: seq<Listed>, i: nat, nextId: int): seq<int>
    requires i <= |list|
    decreases |list| - i
  {
    if i == |list| then []
    else (if list[i].root then [nextId] else []) + IdsFrom(list, i + 1, nextId + 1)
  }

  /** How far the nested installations get: through all of them, or to a failed one. */
  datatype Phase = Through(world: World) | Stopped(status: int, world: World)

  /** The nested installations of the i-th to the last but one before position f. */
  function Foreign(env: Env, i: nat, f: nat, w: World): Phase
    requires i <= f
    decreases f - i
  {
    if i == f then Through(w)
    else
      var nested := env.nested(i);
      if nested.status < 0 then Stopped(nested.status, nested.effect(w))
      else Foreign(env, i + 1, f, nested.effect(w))
  }

  /** The number of foreign packages at the head of a list. */
  function Heads(list: seq<Listed>): (f: nat)
    ensures f <= |list|
    ensures forall i :: 0 <= i < f ==> list[i].foreign
    ensures f < |list| ==> !list[f].foreign
  {
    if list != [] && list[0].foreign then 1 + Heads(list[1..]) else 0
  }

  datatype Result = Success(world: World, ids: seq<int>, executions: nat) | Failure(fault: Fault, world: World)

  /** An Install request, from the state before to the state after. */
  ghost function Install(env: Env, w: World): Result
  {
    match Build(DiskStore(w.disk), env.path, env.data, PRIVATE_DIR, [], -1)
    case Fail(fault) => Failure(fault, w)
    case Ok(b) =>
      var list := env.sort(Listing(b.flat));
      var f := Heads(list);
      match Foreign(env, 0, f, w)
      case Stopped(status, w1) => Failure(Leave(status), w1)
      case Through(w1) =>
        var temps := NewTemps(b.store, w.disk);
        match InstallFrom(env, list, f, w1, temps)
        case Fail(fault) => Failure(fault, w1)
        case Ok(w2) => Success(w2, IdsFrom(list, f, w1.scr.nextId), 2 + 3 * f + CostFrom(env, list, f, w1, temps))
  }
}
