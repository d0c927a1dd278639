/** The Uninstall and Activate/Deactivate tasks as they run. */
module UninstallTasks {
  import opened Platform
  import opened InstallModel
  import opened UninstallModel
  import opened Sessions

  class UninstallTask {
    const req: Removing
    const device: Device
    const iFileList: FilesList
    var iStep: int
    var iScr: ScrTransaction?
    var iSts: StsTransaction?

    function State(): UTask
      reads this, iScr, iSts, iFileList
    {
      UTask(iStep, if iScr == null then None else Some(iScr.now), if iSts == null then None else Some(iSts.Value()), iFileList.left)
    }

    constructor (req: Removing, device: Device)
      ensures this.req == req && this.device == device && fresh(iFileList)
      ensures State() == UTask(GET_FILE_LIST, None, None, []) && iScr == null && iSts == null
    {
      this.req := req;
      this.device := device;
      iFileList := new FilesList();
      iStep := GET_FILE_LIST;
      iScr := null;
      iSts := null;
    }

    method GetFileListL() returns (r: Outcome<()>)
      modifies this, iFileList
      ensures match GetFileList(req, old(State()), device.State())
              case Ok(t) => r == Ok(()) && State() == t.(step := old(iStep)) && t.step == old(iStep) + 1
              case Fail(f) => r == Fail(f)
      ensures r.Ok? ==> iScr != null && iSts != null
      ensures iScr != old(iScr) ==> iScr != null && fresh(iScr)
      ensures iSts != old(iSts) ==> iSts != null && fresh(iSts)
    {
      iScr := new ScrTransaction(device.scr);
      if !req.silent {
        if req.id !in iScr.now.comps {
          return Fail(Leave(ERR_NOT_FOUND));
        }
        if !req.confirm {
          return Fail(Leave(ERR_CANCEL));
        }
      }
      iFileList.OpenListL(iScr, req.id);
      iSts := new StsTransaction(map[]);
      return Ok(());
    }

    /** One execution. */
    method ExecuteImplL() returns (r: Outcome<bool>)
      requires iStep == GET_FILE_LIST || (iScr != null && iSts != null && UNREGISTER_FILE <= iStep <= COMMIT_REMOVAL)
      modifies this, device, iScr, iSts, iFileList
      ensures match UStep(req, old(Running(State(), device.State())))
              case Running(t, w) => r == Ok(false) && State() == t && device.State() == w && iScr != null && iSts != null
              case Done(t, w) => r == Ok(true) && State() == t && device.State() == w
              case Left(f, w) => r == Fail(f) && device.State() == w
      ensures iScr != old(iScr) ==> iScr != null && fresh(iScr)
      ensures iSts != old(iSts) ==> iSts != null && fresh(iSts)
    {
      hide GetFileList, RemoveNext;
      if iStep == GET_FILE_LIST {
        var _ :- GetFileListL();
      } else if iStep == UNREGISTER_FILE {
        var done :- UnregisterAndDeleteFileL(iScr, iFileList, iSts, device.disk, req.id);
        if !done {
          return Ok(false);
        }
      } else {
        iSts.CommitL(device);
        iScr.CommitTransactionL(device);
        return Ok(true);
      }
      iStep := iStep + 1;
      return Ok(false);
    }
  }

  /** A whole Uninstall request. */
  method UninstallComponent(req: Removing, device: Device) returns (r: Outcome<()>)
    modifies device
    ensures match RemovalVerdict(req, old(device.State()))
            case Ok(_) => r == Ok(()) && device.State() == Removed(old(device.State()), req.id)
            case Fail(f) => r == Fail(f) && device.State() == old(device.State())
  {
    hide UStep, Removed, RemovalVerdict;
    ghost var start := device.State();
    if req.id == 0 {
      NullRefused(req, start);
      return Fail(Leave(ERR_ARGUMENT));
    }
    var task := new UninstallTask(req, device);
    ghost var last := |FilesOf(start.scr, req.id)| + 3;
    ghost var n := 0;
    UninstallRefined(req, start);
    var done := false;
    while !done
      invariant n <= last
      invariant fresh(task) && task.req == req && task.device == device && fresh(task.iFileList)
      invariant task.iScr != null ==> fresh(task.iScr)
      invariant task.iSts != null ==> fresh(task.iSts)
      invariant USteps(req, StartUninstall(req, start), n) ==
                if done then Done(task.State(), device.State()) else Running(task.State(), device.State())
      invariant !done ==> task.iStep == GET_FILE_LIST || (task.iScr != null && task.iSts != null)
      decreases last - n, !done
    {
      ghost var c := USteps(req, StartUninstall(req, start), n);
      UKeeps(req, start, n);
      UOver(req, start, n, last);
      UStepsConcat(req, StartUninstall(req, start), n, 1);
      UOne(req, c);
      InRange(start, c);
      var step := task.ExecuteImplL();
      n := n + 1;
      if step.Fail? {
        UStepsConcat(req, StartUninstall(req, start), n, last - n);
        UEndedStays(req, USteps(req, StartUninstall(req, start), n), last - n);
        UninstallAllOrNothing(req, start, n);
        return Fail(step.fault);
      }
      done := step.value;
    }
    UninstallAllOrNothing(req, start, n);
    return Ok(());
  }

  lemma NullRefused(req: Removing, w: World)
    requires req.id == 0
    ensures RemovalVerdict(req, w) == Fail(Leave(ERR_ARGUMENT))
  {
  }

  lemma UOne(req: Removing, c: Config<UTask>)
    ensures USteps(req, c, 1) == UStep(req, c)
  {
    hide UStep;
    assert USteps(req, UStep(req, c), 0) == UStep(req, c);
  }

  lemma InRange(w: World, c: Config<UTask>)
    requires Sound(w, c) && c.Running?
    ensures GET_FILE_LIST <= c.task.step <= COMMIT_REMOVAL
  {
  }

  lemma UOver(req: Removing, w: World, n: nat, last: nat)
    requires USteps(req, StartUninstall(req, w), n).Running? && !USteps(req, StartUninstall(req, w), last).Running?
    ensures n < last
  {
    hide UStep;
    if n >= last {
      UStepsConcat(req, StartUninstall(req, w), last, n - last);
      UEndedStays(req, USteps(req, StartUninstall(req, w), last), n - last);
    }
  }

  /** The Activate and Deactivate requests are done in one execution. */
  method ActivateDeactivate(id: int, activated: bool, device: Device) returns (r: Outcome<()>)
    modifies device
    ensures match SetState(old(device.State()), id, activated)
            case Ok(w) => r == Ok(()) && device.State() == w
            case Fail(f) => r == Fail(f) && device.State() == old(device.State())
  {
    if id == 0 {
      return Fail(Leave(ERR_ARGUMENT));
    }
    var scr := new ScrTransaction(device.scr);
    var _ :- scr.SetScomoStateL(id, activated);
    scr.CommitTransactionL(device);
    return Ok(());
  }
}
