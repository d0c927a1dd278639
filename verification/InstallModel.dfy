/** The Install task as a state machine: one transition per execution, over a
    registry transaction, a file system transaction and nested installations. */
module InstallModel {
  import opened Platform
  import opened PkgText
  import opened Unpack
  import opened PkgTree
  import opened Registry

  const PRIVATE_DIR := "c:\\private\\1028634e\\"
  const FOOTPRINT_LENGTH := |"This file belongs to the SIF reference component.\n"|
  const NUM_LINES := 100
  const FILE_SIZE := NUM_LINES * FOOTPRINT_LENGTH
  const ERR_NO_ACTIVE_TRANSACTION := -10322

  /** The committed state: file sizes by case-folded path, and the registry. */
  datatype World = World(disk: map<string, int>, scr: Scr)

  /** A file system transaction: temporary files, files added and files taken away. */
  datatype Sts = Sts(temps: Store, created: map<string, int>, removed: set<string>)

  /** The disk as it is seen while a transaction is open. */
  function ViewDisk(disk: map<string, int>, sts: Sts): map<string, int> {
    (disk - sts.removed) + sts.created
  }

  /** RemoveL: an absent file is no error. */
  function RemoveFile(disk: map<string, int>, sts: Sts, path: string): Sts {
    var key := Fold(path);
    if key in sts.created then sts.(created := sts.created - {key})
    else if key in disk then sts.(removed := sts.removed + {key})
    else sts
  }

  /** CreateNewL and the writing of the file. */
  function CreateFile(disk: map<string, int>, sts: Sts, path: string, size: int): Outcome<Sts> {
    var key := Fold(path);
    if key in sts.temps || key in ViewDisk(disk, sts) then Fail(Leave(ERR_ALREADY_EXISTS))
    else Ok(sts.(created := sts.created[key := size]))
  }

  /** Paths on the disk are taken; what they hold is of no interest to the extractor. */
  function DiskStore(disk: map<string, int>): Store {
    map k | k in disk :: []
  }

  /** The files the extractor added. */
  function NewTemps(store: Store, disk: map<string, int>): Store {
    store - disk.Keys
  }

  /** A node of the list of packages to install. */
  datatype Listed = Listed(fileName: string, foreign: bool, root: bool)

  function Listing(flat: seq<Aux>): (r: seq<Listed>)
    ensures |r| == |flat|
    ensures forall i :: 0 <= i < |r| ==> r[i] == Listed(flat[i].fileName, flat[i].foreign, flat[i].parent < 0)
  {
    seq(|flat|, i requires 0 <= i < |flat| => Listed(flat[i].fileName, flat[i].foreign, flat[i].parent < 0))
  }

  function AuxNodeSorter(left: Listed, right: Listed): int {
    if left.foreign == right.foreign then 0
    else if !left.foreign && right.foreign then 1
    else -1
  }

  /** A sort by the comparator, which need not be stable. */
  ghost predicate Sorts(input: seq<Listed>, output: seq<Listed>) {
    && multiset(input) == multiset(output)
    && forall i, j :: 0 <= i < j < |output| ==> AuxNodeSorter(output[i], output[j]) <= 0
  }

  /** How a nested installation ends: its result, and what it did to the device. */
  datatype Nested = Nested(status: int, effect: World -> World)

  /** A request and everything its run depends on: the package file, the device
      language, the client's arguments, the user's answers, the order in which the
      registry lists components, the sort, and the nested installations. */
  datatype Env = Env(path: string, data: seq<byte>, language: int, silent: bool, inactive: bool,
                     confirm: int -> bool, order: (Components, string, string) -> seq<int>,
                     sort: seq<Listed> -> seq<Listed>, nested: int -> Nested)

  ghost predicate Lawful(env: Env) {
    && (forall comps, name, vendor :: Enumerates(env.order(comps, name, vendor), comps))
    && (forall list :: Sorts(list, env.sort(list)))
  }

  const EXTRACT_EMBEDDED_PKGS := 1
  const PARSE_PKG_FILE := 2
  const LAUNCH_FOREIGN_INSTALL := 3
  const FINISH_FOREIGN_INSTALL := 4
  const FIND_AND_CHECK_COMPONENT := 5
  const GET_INSTALLED_FILE_LIST := 6
  const UNREGISTER_AND_DELETE_FILE := 7
  const REGISTER_COMPONENT := 8
  const COPY_FILE := 9
  const SET_SCOMO_STATE := 10
  const COMMIT := 11

  /** The fields of the task. `scr` is the registry as the open transaction sees it;
      `ids` logs the identifiers reported to the client. */
  datatype Task = Task(
    step: int, sts: Option<Sts>, scrTransaction: bool, scr: Option<Scr>,
    parser: Option<Record>, found: Found, fileList: seq<string>,
    embedded: seq<Listed>, current: int, sifRequest: bool,
    copyIndex: int, size: int, ids: seq<int>)

  const START := Task(EXTRACT_EMBEDDED_PKGS, None, false, None, None, NOTHING, [], [], 0, false, 0, 0, [])

  /** A run: under way, finished, or left with a fault. What a task that is gone had
      open is rolled back, so only the committed state remains. */
  datatype Config<T> =
    | Running(task: T, world: World)
    | Done(task: T, world: World)
    | Left(fault: Fault, world: World)

  ghost function ExtractEmbeddedPkgs(env: Env, t: Task, w: World): Outcome<Task> {
    var b :- Build(DiskStore(w.disk), env.path, env.data, PRIVATE_DIR, [], -1);
    Ok(t.(sts := Some(Sts(NewTemps(b.store, w.disk), map[], {})),
          embedded := env.sort(Listing(b.flat)),
          step := t.step + 1))
  }

  function ParsePkgFile(t: Task): Outcome<Task> {
    if !(0 <= t.current < |t.embedded|) || t.sts.None? then Fail(Panic) else
    var node := t.embedded[t.current];
    if node.foreign then Ok(t.(parser := None, step := LAUNCH_FOREIGN_INSTALL))
    else if Fold(node.fileName) !in t.sts.value.temps then Fail(Leave(ERR_NOT_FOUND))
    else
      var rec :- Parse(t.sts.value.temps[Fold(node.fileName)]);
      Ok(t.(parser := Some(rec), step := FIND_AND_CHECK_COMPONENT))
  }

  function LaunchForeignInstall(t: Task): Outcome<Task> {
    if !(0 <= t.current < |t.embedded|) then Fail(Panic)
    else Ok(t.(sifRequest := true, step := t.step + 1))
  }

  function FinishForeignInstall(t: Task, status: int): Outcome<Task> {
    if status < 0 then Fail(Leave(status))
    else Ok(t.(sifRequest := false, current := t.current + 1, step := PARSE_PKG_FILE))
  }

  /** The search for the component a package would replace. */
  function Lookup(env: Env, comps: Components, rec: Record): (found: Found)
    requires Complete(rec)
  {
    var i := ChosenIndex(rec.languages, env.language);
    var order := env.order(comps, rec.names[i], rec.vendors[i]);
    Search(comps, View(comps, order, rec.names[i], rec.vendors[i]), rec.version, NOTHING)
  }

  function FindAndCheckComponent(env: Env, t: Task, w: World): Outcome<Task>
  {
    if t.parser.None? || !Complete(t.parser.value) then Fail(Panic) else
    var scr := if t.scrTransaction then t.scr else Some(w.scr);
    if scr.None? then Fail(Panic) else
    var found := Lookup(env, scr.value.comps, t.parser.value);
    if found.status == ALREADY_INSTALLED then Fail(Leave(ERR_SAME_VERSION))
    else if found.status == NEWER_INSTALLED then Fail(Leave(ERR_NEWER_VERSION))
    else if !env.silent && !env.confirm(t.current) then Fail(Leave(ERR_CANCEL))
    else Ok(t.(scrTransaction := true, scr := scr, found := found,
               step := if found.status == UPGRADE then GET_INSTALLED_FILE_LIST else REGISTER_COMPONENT))
  }

  function FilesOf(scr: Scr, id: int): seq<string> {
    if id in scr.comps then scr.comps[id].files else []
  }

  function GetInstalledFileList(t: Task): Outcome<Task> {
    if t.scr.None? then Fail(Panic)
    else Ok(t.(fileList := FilesOf(t.scr.value, t.found.id), step := t.step + 1))
  }

  datatype Removal = Removal(fileList: seq<string>, scr: Scr, sts: Sts, done: bool)

  /** Takes one file away, or the component when no file is left. */
  function RemoveNext(disk: map<string, int>, fileList: seq<string>, scr: Scr, sts: Sts, id: int): Outcome<Removal> {
    if fileList != [] then Ok(Removal(fileList[1..], scr, RemoveFile(disk, sts, fileList[0]), false))
    else if id !in scr.comps then Fail(Leave(ERR_NOT_FOUND))
    else Ok(Removal([], scr.(comps := scr.comps - {id}), sts, true))
  }

  function UnregisterAndDeleteFile(t: Task, disk: map<string, int>): Outcome<Task> {
    if t.scr.None? || t.sts.None? then Fail(Panic) else
    var r :- RemoveNext(disk, t.fileList, t.scr.value, t.sts.value, t.found.id);
    Ok(t.(fileList := r.fileList, scr := Some(r.scr), sts := Some(r.sts), step := if r.done then t.step + 1 else t.step))
  }

  /** The registry refuses a component without a name. */
  predicate Named(locs: seq<Localized>) {
    forall i :: 0 <= i < |locs| ==> locs[i].name != ""
  }

  function RegisterComponent(t: Task): Outcome<Task> {
    if t.scr.None? || t.parser.None? || !Complete(t.parser.value) || !(0 <= t.current < |t.embedded|) then Fail(Panic)
    else if !Named(Locs(t.parser.value)) then Fail(Leave(ERR_ARGUMENT))
    else
      var scr := t.scr.value;
      var id := scr.nextId;
      var c := Component(Locs(t.parser.value), SOFTWARE_TYPE, t.parser.value.version, [], 0, false);
      Ok(t.(scr := Some(Scr(scr.comps[id := c], id + 1)),
            found := t.found.(id := id),
            copyIndex := 0, size := 0,
            ids := if t.embedded[t.current].root then t.ids + [id] else t.ids,
            step := t.step + 1))
  }

  function CopyFile(t: Task, disk: map<string, int>): Outcome<Task> {
    if t.scr.None? || t.sts.None? || t.parser.None? || t.copyIndex < 0 then Fail(Panic)
    else if t.found.id !in t.scr.value.comps then Fail(Leave(ERR_NOT_FOUND))
    else
      var (scr, id) := (t.scr.value, t.found.id);
      var files := t.parser.value.files;
      if t.copyIndex < |files| then
        var path := files[t.copyIndex];
        var sts :- CreateFile(disk, t.sts.value, path, FILE_SIZE);
        var c := scr.comps[id];
        Ok(t.(scr := Some(scr.(comps := scr.comps[id := c.(files := c.files + [path])])),
              sts := Some(sts),
              size := t.size + FILE_SIZE,
              copyIndex := t.copyIndex + 1))
      else
        Ok(t.(scr := Some(scr.(comps := scr.comps[id := scr.comps[id].(size := t.size)])),
              step := t.step + 1))
  }

  function SetScomoState(t: Task, inactive: bool): Outcome<Task> {
    if t.scr.None? then Fail(Panic)
    else if t.found.id !in t.scr.value.comps then Fail(Leave(ERR_NOT_FOUND))
    else
      var (scr, id) := (t.scr.value, t.found.id);
      Ok(t.(scr := Some(if inactive then scr else scr.(comps := scr.comps[id := scr.comps[id].(activated := true)])),
            current := t.current + 1,
            step := if t.current + 1 < |t.embedded| then PARSE_PKG_FILE else COMMIT))
  }

  /** CommitL: first the files, then the registry. */
  function Commit(t: Task, w: World): Config<Task> {
    if t.sts.None? then Left(Panic, w)
    else
      var disk := ViewDisk(w.disk, t.sts.value);
      if t.scr.None? then Left(Leave(ERR_NO_ACTIVE_TRANSACTION), World(disk, w.scr))
      else Done(t, World(disk, t.scr.value))
  }

  function Resume<T>(r: Outcome<T>, w: World): Config<T> {
    match r
    case Ok(t) => Running(t, w)
    case Fail(f) => Left(f, w)
  }

  /** One execution of the task. */
  ghost function Step(env: Env, t: Task, w: World): Config<Task>
  {
    if t.step == EXTRACT_EMBEDDED_PKGS then Resume(ExtractEmbeddedPkgs(env, t, w), w)
    else if t.step == PARSE_PKG_FILE then Resume(ParsePkgFile(t), w)
    else if t.step == LAUNCH_FOREIGN_INSTALL then Resume(LaunchForeignInstall(t), w)
    else if t.step == FINISH_FOREIGN_INSTALL then
      var nested := env.nested(t.current);
      Resume(FinishForeignInstall(t, nested.status), nested.effect(w))
    else if t.step == FIND_AND_CHECK_COMPONENT then Resume(FindAndCheckComponent(env, t, w), w)
    else if t.step == GET_INSTALLED_FILE_LIST then Resume(GetInstalledFileList(t), w)
    else if t.step == UNREGISTER_AND_DELETE_FILE then Resume(UnregisterAndDeleteFile(t, w.disk), w)
    else if t.step == REGISTER_COMPONENT then Resume(RegisterComponent(t), w)
    else if t.step == COPY_FILE then Resume(CopyFile(t, w.disk), w)
    else if t.step == SET_SCOMO_STATE then Resume(SetScomoState(t, env.inactive), w)
    else if t.step == COMMIT then Commit(t, w)
    else Left(Leave(ERR_GENERAL), w)
  }

  ghost function StepConfig(env: Env, c: Config<Task>): Config<Task>
  {
    if c.Running? then Step(env, c.task, c.world) else c
  }

  /** The run after n executions. A run that has ended stays as it is. */
  ghost function Steps(env: Env, c: Config<Task>, n: nat): Config<Task>
    decreases n
  {
    if n == 0 then c else Steps(env, StepConfig(env, c), n - 1)
  }

  lemma {:induction false} StepsConcat(env: Env, c: Config<Task>, m: nat, n: nat)
    ensures Steps(env, c, m + n) == Steps(env, Steps(env, c, m), n)
    decreases m
  {
    hide StepConfig;
    if m > 0 {
      StepsConcat(env, StepConfig(env, c), m - 1, n);
    }
  }
}
