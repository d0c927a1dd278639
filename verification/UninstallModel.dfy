/** The Uninstall and the Activate/Deactivate tasks, and what they amount to. */
module UninstallModel {
  import opened Platform
  import opened Registry
  import opened InstallModel
  import opened InstallSpec
  import opened InstallRuns

  /** A request to uninstall a component, and the user's answer. */
  datatype Removing = Removing(id: int, silent: bool, confirm: bool)

  const GET_FILE_LIST := 1
  const UNREGISTER_FILE := 2
  const COMMIT_REMOVAL := 3

  datatype UTask = UTask(step: int, scr: Option<Scr>, sts: Option<Sts>, fileList: seq<string>)

  /** A task cannot be made for the null identifier. */
  function StartUninstall(req: Removing, w: World): Config<UTask> {
    if req.id == 0 then Left(Leave(ERR_ARGUMENT), w) else Running(UTask(GET_FILE_LIST, None, None, []), w)
  }

  function GetFileList(req: Removing, t: UTask, w: World): Outcome<UTask> {
    if !req.silent && req.id !in w.scr.comps then Fail(Leave(ERR_NOT_FOUND))
    else if !req.silent && !req.confirm then Fail(Leave(ERR_CANCEL))
    else Ok(UTask(t.step + 1, Some(w.scr), Some(Sts(map[], map[], {})), FilesOf(w.scr, req.id)))
  }

  function UnregisterFile(req: Removing, t: UTask, disk: map<string, int>): Outcome<UTask> {
    if t.scr.None? || t.sts.None? then Fail(Panic) else
    var r :- RemoveNext(disk, t.fileList, t.scr.value, t.sts.value, req.id);
    Ok(UTask(if r.done then t.step + 1 else t.step, Some(r.scr), Some(r.sts), r.fileList))
  }

  function CommitRemoval(t: UTask, w: World): Config<UTask> {
    if t.sts.None? then Left(Panic, w)
    else
      var disk := ViewDisk(w.disk, t.sts.value);
      if t.scr.None? then Left(Leave(ERR_NO_ACTIVE_TRANSACTION), World(disk, w.scr))
      else Done(t, World(disk, t.scr.value))
  }

  function UStep(req: Removing, c: Config<UTask>): Config<UTask> {
    if !c.Running? then c
    else if c.task.step == GET_FILE_LIST then Resume(GetFileList(req, c.task, c.world), c.world)
    else if c.task.step == UNREGISTER_FILE then Resume(UnregisterFile(req, c.task, c.world.disk), c.world)
    else if c.task.step == COMMIT_REMOVAL then CommitRemoval(c.task, c.world)
    else Left(Leave(ERR_GENERAL), c.world)
  }

  function USteps(req: Removing, c: Config<UTask>, n: nat): Config<UTask>
    decreases n
  {
    if n == 0 then c else USteps(req, UStep(req, c), n - 1)
  }

  // ---------------------------------------------------------------------------
  // What uninstalling amounts to
  // ---------------------------------------------------------------------------

  function Removed(w: World, id: int): World {
    World(w.disk - KeysOf(FilesOf(w.scr, id)), w.scr.(comps := w.scr.comps - {id}))
  }

  function RemovalVerdict(req: Removing, w: World): Outcome<()> {
    if req.id == 0 then Fail(Leave(ERR_ARGUMENT))
    else if !req.silent && req.id in w.scr.comps && !req.confirm then Fail(Leave(ERR_CANCEL))
    else if req.id !in w.scr.comps then Fail(Leave(ERR_NOT_FOUND))
    else Ok(())
  }

  lemma {:induction false} UStepsConcat(req: Removing, c: Config<UTask>, m: nat, n: nat)
    ensures USteps(req, c, m + n) == USteps(req, USteps(req, c, m), n)
    decreases m
  {
    hide UStep;
    if m > 0 {
      UStepsConcat(req, UStep(req, c), m - 1, n);
    }
  }

  lemma {:induction false} UEndedStays(req: Removing, c: Config<UTask>, n: nat)
    requires !c.Running?
    ensures USteps(req, c, n) == c
    decreases n
  {
    if n > 0 {
      UEndedStays(req, c, n - 1);
    }
  }

  lemma {:induction false} UDeleteLoop(req: Removing, t: UTask, w: World)
    requires t.step == UNREGISTER_FILE && t.scr.Some? && t.sts.Some?
    ensures USteps(req, Running(t, w), |t.fileList|)
         == Running(t.(sts := Some(RemoveAll(w.disk, t.sts.value, t.fileList)), fileList := []), w)
    decreases |t.fileList|
  {
    hide RemoveFile;
    if t.fileList == [] {
      assert t == t.(sts := Some(RemoveAll(w.disk, t.sts.value, t.fileList)), fileList := []);
    } else {
      var next := t.(sts := Some(RemoveFile(w.disk, t.sts.value, t.fileList[0])), fileList := t.fileList[1..]);
      assert UStep(req, Running(t, w)) == Running(next, w);
      UDeleteLoop(req, next, w);
    }
  }

  /** The last execution before the commit, and the commit. */
  lemma UFinish(req: Removing, t: UTask, w: World)
    requires t.step == UNREGISTER_FILE && t.scr.Some? && t.sts.Some? && t.fileList == []
    ensures var next := t.(scr := Some(t.scr.value.(comps := t.scr.value.comps - {req.id})), step := COMMIT_REMOVAL);
            if req.id in t.scr.value.comps then
              && USteps(req, Running(t, w), 1) == Running(next, w)
              && USteps(req, Running(t, w), 2) == Done(next, World(ViewDisk(w.disk, t.sts.value), t.scr.value.(comps := t.scr.value.comps - {req.id})))
            else USteps(req, Running(t, w), 1) == Left(Leave(ERR_NOT_FOUND), w)
  {
    hide ViewDisk;
    var next := t.(scr := Some(t.scr.value.(comps := t.scr.value.comps - {req.id})), step := COMMIT_REMOVAL);
    var c := UStep(req, Running(t, w));
    assert USteps(req, Running(t, w), 1) == USteps(req, c, 0) == c;
    assert USteps(req, Running(t, w), 2) == USteps(req, c, 1) == USteps(req, UStep(req, c), 0);
  }

  lemma URemoval(w: World, files: seq<string>)
    ensures var sts := Sts(map[], map[], {});
            ViewDisk(w.disk, RemoveAll(w.disk, sts, files)) == w.disk - KeysOf(files)
  {
    hide KeysOf;
    var sts := Sts(map[], map[], {});
    RemoveAllShows(w.disk, sts, files);
    assert ViewDisk(w.disk, sts) == w.disk;
  }

  /** An uninstallation removes the component and exactly its files, in one
      execution per file and three more, or it leaves and changes nothing. */
  lemma UninstallRefined(req: Removing, w: World)
    ensures var n := |FilesOf(w.scr, req.id)| + 3;
            var last := USteps(req, StartUninstall(req, w), n);
            var verdict := RemovalVerdict(req, w);
            if verdict.Fail? then last == Left(verdict.fault, w)
            else
              && last.Done? && last.world == Removed(w, req.id)
              && USteps(req, StartUninstall(req, w), n - 1).Running?
  {
    hide RemoveAll, KeysOf, ViewDisk;
    var files := FilesOf(w.scr, req.id);
    var n := |files| + 3;
    var start := StartUninstall(req, w);
    if req.id == 0 {
      UEndedStays(req, start, n);
    } else {
      UStepsConcat(req, start, 1, n - 1);
      var c := UStep(req, start);
      assert USteps(req, start, 1) == USteps(req, c, 0) == c;
      if c.Left? {
        UEndedStays(req, c, n - 1);
      } else {
        var t := c.task;
        UStepsConcat(req, start, 1, n - 2);
        UDeleteLoop(req, t, w);
        URemoval(w, files);
        var t1 := t.(sts := Some(RemoveAll(w.disk, t.sts.value, files)), fileList := []);
        UFinish(req, t1, w);
        UStepsConcat(req, c, |files|, 2);
        UStepsConcat(req, c, |files|, 1);
        UStepsConcat(req, Running(t1, w), 1, 1);
        if req.id !in w.scr.comps {
          UEndedStays(req, USteps(req, Running(t1, w), 1), 1);
        }
      }
    }
  }

  /** Until it is done, an uninstallation has changed nothing. */
  lemma {:induction false} UninstallAllOrNothing(req: Removing, w: World, n: nat)
    ensures var c := USteps(req, StartUninstall(req, w), n);
            && (!c.Done? ==> c.world == w)
            && (c.Done? ==> RemovalVerdict(req, w).Ok? && c.world == Removed(w, req.id))
  {
    hide Removed, RemovalVerdict, StartUninstall;
    var start := StartUninstall(req, w);
    var k := |FilesOf(w.scr, req.id)| + 3;
    UninstallRefined(req, w);
    UKeeps(req, w, n);
    var c := USteps(req, start, n);
    if c.Done? {
      UStepsConcat(req, start, n, k);
      UStepsConcat(req, start, k, n);
      UEndedStays(req, c, k);
      UEndedStays(req, USteps(req, start, k), n);
    }
  }

  /** What a request to uninstall comes to: the null identifier and a missing component
      are refused, as is a request that the user declines; otherwise the component is
      gone, and so is each of its files and nothing else. A silent request asks nobody. */
  lemma UninstallMeans(req: Removing, w: World)
    ensures var files := if req.id in w.scr.comps then w.scr.comps[req.id].files else [];
            var last := USteps(req, StartUninstall(req, w), |files| + 3);
            if req.id == 0 then last == Left(Leave(ERR_ARGUMENT), w)
            else if req.id !in w.scr.comps then last == Left(Leave(ERR_NOT_FOUND), w)
            else if !req.silent && !req.confirm then last == Left(Leave(ERR_CANCEL), w)
            else last.Done? && Gone(w, last.world, req.id, files)
  {
    hide USteps, StartUninstall;
    UninstallRefined(req, w);
  }

  /** The component and its files are gone; everything else is as it was. */
  ghost predicate Gone(before: World, after: World, id: int, files: seq<string>) {
    && id !in after.scr.comps && after.scr.nextId == before.scr.nextId
    && (forall a :: a != id ==> (a in after.scr.comps <==> a in before.scr.comps))
    && (forall a :: a != id && a in before.scr.comps ==> after.scr.comps[a] == before.scr.comps[a])
    && (forall i :: 0 <= i < |files| ==> Fold(files[i]) !in after.disk)
    && (forall key :: key in after.disk ==> key in before.disk && after.disk[key] == before.disk[key])
    && (forall key :: key in before.disk && (forall i :: 0 <= i < |files| ==> Fold(files[i]) != key) ==> key in after.disk)
  }

  ghost predicate Sound(w: World, c: Config<UTask>) {
    match c
    case Running(t, now) => now == w && (t.step == COMMIT_REMOVAL ==> t.scr.Some?) && GET_FILE_LIST <= t.step <= COMMIT_REMOVAL
                            && (t.step != GET_FILE_LIST ==> t.scr.Some? && t.sts.Some?)
    case Left(_, now) => now == w
    case Done(_, _) => true
  }

  lemma {:induction false} UKeeps(req: Removing, w: World, n: nat)
    ensures Sound(w, USteps(req, StartUninstall(req, w), n))
    decreases n
  {
    hide ViewDisk, RemoveNext;
    if n > 0 {
      UKeeps(req, w, n - 1);
      var c := USteps(req, StartUninstall(req, w), n - 1);
      UStepsConcat(req, StartUninstall(req, w), n - 1, 1);
      assert USteps(req, c, 1) == USteps(req, UStep(req, c), 0);
    }
  }

  // ---------------------------------------------------------------------------
  // Activation
  // ---------------------------------------------------------------------------

  /** SetScomoStateL outside a transaction takes effect at once. */
  function SetState(w: World, id: int, activated: bool): Outcome<World> {
    if id == 0 then Fail(Leave(ERR_ARGUMENT))
    else if id !in w.scr.comps then Fail(Leave(ERR_NOT_FOUND))
    else Ok(w.(scr := w.scr.(comps := w.scr.comps[id := w.scr.comps[id].(activated := activated)])))
  }
}
