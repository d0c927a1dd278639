/** The Install task as it runs: an object whose fields change from one execution
    to the next, on sessions of the device. */
module InstallTasks {
  import opened Platform
  import opened PkgText
  import opened PkgTree
  import opened AuxNodes
  import opened Registry
  import opened InstallModel
  import opened InstallRuns
  import opened InstallSafety
  import opened InstallLaws
  import opened Sessions
  import Extractor
  import PkgParser
  import InstallSpec

  /** The nodes as the list that is sorted and installed. */
  method ListNodes(nodes: seq<AuxNode>, ghost flat: seq<Aux>) returns (list: seq<Listed>)
    requires Extractor.Shows(nodes, flat)
    ensures list == Listing(flat)
  {
    list := [];
    for i := 0 to |nodes|
      invariant |list| == i
      invariant forall j :: 0 <= j < i ==> list[j] == Listed(flat[j].fileName, flat[j].foreign, flat[j].parent < 0)
    {
      assert Extractor.ShowsNode(nodes, nodes[i], flat[i]);
      list := list + [Listed(nodes[i].fileName, nodes[i].foreign, nodes[i].Root())];
    }
  }

  /** The names and vendors of a package, language by language. */
  method LocalizableInfos(parser: PkgParser.PkgParser) returns (infos: seq<Localized>)
    requires Complete(parser.Current())
    ensures infos == Locs(parser.Current())
  {
    ghost var rec := parser.Current();
    infos := [];
    for i := 0 to |parser.iLanguages|
      invariant |infos| == i
      invariant forall j :: 0 <= j < i ==> infos[j] == Locs(rec)[j]
    {
      infos := infos + [Localized(parser.iComponentNames[i], parser.iVendorNames[i], parser.iLanguages[i])];
    }
  }

  lemma RegisterValue(t: Task)
    requires t.scr.Some? && t.parser.Some? && Complete(t.parser.value) && 0 <= t.current < |t.embedded|
    ensures RegisterComponent(t) ==
            if Named(Locs(t.parser.value)) then Ok(Registered(t).(step := t.step + 1)) else Fail(Leave(ERR_ARGUMENT))
  {
    hide Named, Locs, Complete;
  }

  /** Adds the package's component and sets its version. */
  method AddVersionedL(scr: ScrTransaction, parser: PkgParser.PkgParser) returns (r: Outcome<int>)
    requires Complete(parser.Current())
    modifies scr
    ensures var rec := parser.Current();
            var id := old(scr.now).nextId;
            if Named(Locs(rec)) then
              && r == Ok(id)
              && scr.now == Scr(old(scr.now).comps[id := Component(Locs(rec), SOFTWARE_TYPE, rec.version, [], 0, false)], id + 1)
            else r == Fail(Leave(ERR_ARGUMENT)) && scr.now == old(scr.now)
  {
    hide Named, Locs, Complete;
    ghost var comps := scr.now.comps;
    var componentInfoArray := LocalizableInfos(parser);
    var id :- scr.AddComponentL(componentInfoArray, SOFTWARE_TYPE);
    var versioned := scr.SetComponentVersionL(id, parser.iVersion);
    assert scr.now.comps == comps[id := Component(componentInfoArray, SOFTWARE_TYPE, parser.iVersion, [], 0, false)];
    return Ok(id);
  }

  /** Creates a file and writes its contents, a line at a time. */
  method CreateAndWriteL(sts: StsTransaction, disk: map<string, int>, path: string) returns (r: Outcome<()>)
    modifies sts
    ensures match CreateFile(disk, old(sts.Value()), path, FILE_SIZE)
            case Ok(s) => r == Ok(()) && sts.Value() == s
            case Fail(f) => r == Fail(f) && sts.Value() == old(sts.Value())
  {
    hide Fold, ViewDisk;
    ghost var before := sts.Value();
    var _ :- sts.CreateNewL(disk, path);
    for i := 0 to NUM_LINES
      invariant sts.Value() == before.(created := before.created[Fold(path) := i * FOOTPRINT_LENGTH])
    {
      sts.Write(path, FOOTPRINT_LENGTH);
    }
    return Ok(());
  }

  method RegisterAndCopyL(scr: ScrTransaction, sts: StsTransaction, disk: map<string, int>, id: int, path: string) returns (r: Outcome<()>)
    requires id in scr.now.comps
    modifies scr, sts
    ensures match CreateFile(disk, old(sts.Value()), path, FILE_SIZE)
            case Ok(s) =>
              && r == Ok(()) && sts.Value() == s
              && scr.now == old(scr.now).(comps := old(scr.now).comps[id := old(scr.now).comps[id].(files := old(scr.now).comps[id].files + [path])])
            case Fail(f) => r == Fail(f)
  {
    hide CreateFile;
    var registered := scr.RegisterComponentFileL(id, path);
    r := CreateAndWriteL(sts, disk, path);
  }

  method PathExists(sts: StsTransaction, disk: map<string, int>, path: string) returns (taken: bool)
    ensures taken <==> CreateFile(disk, sts.Value(), path, FILE_SIZE).Fail?
  {
    return Fold(path) in sts.temps || Fold(path) in ViewDisk(disk, sts.Value());
  }

  class InstallTask {
    const env: Env
    const device: Device
    const iFileList: FilesList
    var iStep: int
    var iScrTransaction: bool
    var iScr: ScrTransaction?
    var iSts: StsTransaction?
    var iParser: PkgParser.PkgParser?
    var iCompSearchData: Found
    var iEmbeddedComponents: seq<Listed>
    var iCurrentComponent: int
    var iSifRequestInProgress: bool
    var iCopyFileIndex: int
    var iComponentSize: int
    var iComponentIds: seq<int>
    var iErrorDescription: Option<string>

    function State(): Task
      reads this, iScr, iSts, iParser, iFileList
    {
      Task(iStep, if iSts == null then None else Some(iSts.Value()), iScrTransaction,
           if iScr == null then None else Some(iScr.now),
           if iParser == null then None else Some(iParser.Current()),
           iCompSearchData, iFileList.left, iEmbeddedComponents, iCurrentComponent,
           iSifRequestInProgress, iCopyFileIndex, iComponentSize, iComponentIds)
    }

    constructor (env: Env, device: Device)
      ensures this.env == env && this.device == device && fresh(iFileList)
      ensures State() == START
      ensures iScr == null && iSts == null && iParser == null
    {
      this.env := env;
      this.device := device;
      iFileList := new FilesList();
      iStep := EXTRACT_EMBEDDED_PKGS;
      iScrTransaction := false;
      iScr := null;
      iSts := null;
      iParser := null;
      iCompSearchData := NOTHING;
      iEmbeddedComponents := [];
      iCurrentComponent := 0;
      iSifRequestInProgress := false;
      iCopyFileIndex := 0;
      iComponentSize := 0;
      iComponentIds := [];
      iErrorDescription := None;
    }

    method ExtractEmbeddedPkgsL() returns (r: Outcome<()>)
      requires State() == START
      modifies this
      ensures match ExtractEmbeddedPkgs(env, old(State()), device.State())
              case Ok(t) => r == Ok(()) && State() == t.(step := old(iStep)) && t.step == old(iStep) + 1
              case Fail(f) => r == Fail(f)
      ensures iSts != null ==> fresh(iSts)
      ensures iScr == old(iScr) && iParser == old(iParser)
    {
      hide Build, Listing;
      var session := new Extractor.StsSession();
      session.temps := DiskStore(device.disk);
      var nodes :- Extractor.BuildPkgTreeL(session, env.path, env.data, PRIVATE_DIR);
      ghost var b := Build(DiskStore(device.disk), env.path, env.data, PRIVATE_DIR, [], -1).value;
      iSts := new StsTransaction(NewTemps(session.temps, device.disk));
      var list := ListNodes(nodes, b.flat);
      iEmbeddedComponents := env.sort(list);
      return Ok(());
    }

    method ParsePkgFileImplL() returns (r: Outcome<int>)
      requires iSts != null && 0 <= iCurrentComponent < |iEmbeddedComponents|
      modifies this
      ensures match ParsePkgFile(old(State()))
              case Ok(t) => r == Ok(t.step) && State() == t.(step := old(iStep))
              case Fail(f) => r == Fail(f)
      ensures iParser != null ==> fresh(iParser)
      ensures iScr == old(iScr) && iSts == old(iSts)
    {
      hide Parse, Fold;
      iParser := null;
      var node := iEmbeddedComponents[iCurrentComponent];
      if node.foreign {
        return Ok(LAUNCH_FOREIGN_INSTALL);
      }
      if Fold(node.fileName) !in iSts.temps {
        return Fail(Leave(ERR_NOT_FOUND));
      }
      var parser := new PkgParser.PkgParser();
      var _ :- parser.ParseL(iSts.temps[Fold(node.fileName)]);
      iParser := parser;
      return Ok(FIND_AND_CHECK_COMPONENT);
    }

    method LaunchForeignInstallL()
      requires 0 <= iCurrentComponent < |iEmbeddedComponents|
      modifies this`iSifRequestInProgress
      ensures LaunchForeignInstall(old(State())) == Ok(State().(step := old(iStep) + 1))
    {
      iSifRequestInProgress := true;
    }

    /** The status is that of the nested installation, which has ended. */
    method FinishForeignInstallL(status: int) returns (r: Outcome<()>)
      modifies this`iSifRequestInProgress, this`iCurrentComponent
      ensures match FinishForeignInstall(old(State()), status)
              case Ok(t) => r == Ok(()) && State() == t.(step := old(iStep)) && t.step == PARSE_PKG_FILE
              case Fail(f) => r == Fail(f)
    {
      iSifRequestInProgress := false;
      if status < 0 {
        return Fail(Leave(status));
      }
      iCurrentComponent := iCurrentComponent + 1;
      return Ok(());
    }

    /** The search data for the package at hand. */
    method FindComponentL() returns (found: Found)
      requires iScr != null && iParser != null && Complete(iParser.Current())
      ensures found == Lookup(env, iScr.now.comps, iParser.Current())
    {
      hide CompareVersions, View;
      var langIndex := iParser.GetLanguageIndex(env.language);
      if langIndex == ERR_NOT_FOUND {
        langIndex := 0;
      }
      var name := iParser.iComponentNames[langIndex];
      var vendor := iParser.iVendorNames[langIndex];
      var view := View(iScr.now.comps, env.order(iScr.now.comps, name, vendor), name, vendor);
      found := Registry.FindComponentL(iScr.now.comps, view, iParser.iVersion);
    }

    method FindAndCheckComponentL() returns (r: Outcome<int>)
      requires iParser != null && Complete(iParser.Current()) && (iScrTransaction <==> iScr != null)
      modifies this
      ensures match FindAndCheckComponent(env, old(State()), device.State())
              case Ok(t) => r == Ok(t.step) && State() == t.(step := old(iStep))
              case Fail(f) => r == Fail(f)
      ensures iScr != old(iScr) ==> iScr != null && fresh(iScr)
      ensures iSts == old(iSts) && iParser == old(iParser)
    {
      hide Lookup, Complete;
      if !iScrTransaction {
        iScr := new ScrTransaction(device.scr);
        iScrTransaction := true;
      }
      var nextStep := REGISTER_COMPONENT;
      iCompSearchData := FindComponentL();
      if iCompSearchData.status == UPGRADE {
        nextStep := GET_INSTALLED_FILE_LIST;
      } else if iCompSearchData.status == ALREADY_INSTALLED {
        return Fail(Leave(ERR_SAME_VERSION));
      } else if iCompSearchData.status == NEWER_INSTALLED {
        return Fail(Leave(ERR_NEWER_VERSION));
      }
      if !env.silent {
        if !env.confirm(iCurrentComponent) {
          return Fail(Leave(ERR_CANCEL));
        }
      }
      return Ok(nextStep);
    }

    method GetInstalledFileListL()
      requires iScr != null
      modifies iFileList
      ensures GetInstalledFileList(old(State())) == Ok(State().(step := old(iStep) + 1))
    {
      iFileList.OpenListL(iScr, iCompSearchData.id);
    }

    method UnregisterAndDeleteFileL() returns (r: Outcome<bool>)
      requires iScr != null && iSts != null
      modifies iScr, iSts, iFileList
      ensures match UnregisterAndDeleteFile(old(State()), device.disk)
              case Ok(t) => r.Ok? && State() == t.(step := old(iStep)) && t.step == (if r.value then old(iStep) + 1 else old(iStep))
              case Fail(f) => r == Fail(f)
    {
      hide RemoveNext;
      r := Sessions.UnregisterAndDeleteFileL(iScr, iFileList, iSts, device.disk, iCompSearchData.id);
    }

    method RegisterComponentL() returns (r: Outcome<()>)
      requires iScr != null && iParser != null && Complete(iParser.Current())
      requires 0 <= iCurrentComponent < |iEmbeddedComponents|
      modifies this`iCompSearchData, this`iCopyFileIndex, this`iComponentSize, this`iComponentIds, iScr
      ensures match RegisterComponent(old(State()))
              case Ok(t) => r == Ok(()) && State() == t.(step := old(iStep)) && t.step == old(iStep) + 1
              case Fail(f) => r == Fail(f)
    {
      hide Named, Locs, Complete, RegisterComponent;
      RegisterValue(State());
      var id :- AddVersionedL(iScr, iParser);
      iCompSearchData := iCompSearchData.(id := id);
      iCopyFileIndex := 0;
      iComponentSize := 0;
      if iEmbeddedComponents[iCurrentComponent].root {
        iComponentIds := iComponentIds + [id];
      }
      return Ok(());
    }

    /** A file in the way is described to the client by its bare path. */
    method CopyFileL() returns (r: Outcome<bool>)
      requires iScr != null && iSts != null && iParser != null && Complete(iParser.Current())
      requires iCopyFileIndex >= 0 && iCompSearchData.id in iScr.now.comps
      modifies this`iErrorDescription, this`iComponentSize, this`iCopyFileIndex, iScr, iSts
      ensures match CopyFile(old(State()), device.disk)
              case Ok(t) => r.Ok? && State() == t.(step := old(iStep)) && t.step == (if r.value then old(iStep) + 1 else old(iStep))
              case Fail(f) => r == Fail(f) && iErrorDescription == Some(old(iParser.iFiles[iCopyFileIndex]))
    {
      hide Fold, Complete, ViewDisk, CreateFile;
      if iCopyFileIndex < |iParser.iFiles| {
        var filePath := iParser.iFiles[iCopyFileIndex];
        var taken := PathExists(iSts, device.disk, filePath);
        if taken {
          iErrorDescription := Some(filePath);
        }
        var _ :- RegisterAndCopyL(iScr, iSts, device.disk, iCompSearchData.id, filePath);
        iComponentSize := iComponentSize + FOOTPRINT_LENGTH * NUM_LINES;
        iCopyFileIndex := iCopyFileIndex + 1;
        return Ok(false);
      }
      var sized := iScr.SetComponentSizeL(iCompSearchData.id, iComponentSize);
      return Ok(true);
    }

    method SetScomoStateL() returns (r: Outcome<int>)
      requires iScr != null && iCompSearchData.id in iScr.now.comps
      modifies this`iCurrentComponent, iScr
      ensures match SetScomoState(old(State()), env.inactive)
              case Ok(t) => r == Ok(t.step) && State() == t.(step := old(iStep))
              case Fail(f) => r == Fail(f)
    {
      if !env.inactive {
        var activated := iScr.SetScomoStateL(iCompSearchData.id, true);
      }
      iCurrentComponent := iCurrentComponent + 1;
      return Ok(if iCurrentComponent < |iEmbeddedComponents| then PARSE_PKG_FILE else COMMIT);
    }

    method CommitL()
      requires iScr != null && iSts != null
      modifies device
      ensures Commit(State(), old(device.State())) == Done(State(), device.State())
    {
      iSts.CommitL(device);
      iScr.CommitTransactionL(device);
    }

    /** The task is in this configuration, or has left with its fault. */
    ghost predicate Reached(c: Config<Task>, r: Outcome<bool>)
      reads this, iScr, iSts, iParser, iFileList, device
    {
      match c
      case Running(t, w) => r == Ok(false) && State() == t && device.State() == w
      case Done(t, w) => r == Ok(true) && State() == t && device.State() == w
      case Left(f, w) => r == Fail(f) && device.State() == w
    }

    /** The switch, on the steps up to the end of the nested installations. */
    method ExecuteNestedL(ghost start: World) returns (r: Outcome<bool>)
      requires Safe(env, start, State(), device.State()) && iStep <= FINISH_FOREIGN_INSTALL
      modifies this, device
      ensures Reached(Step(env, old(State()), old(device.State())), r)
      ensures iScr == old(iScr)
      ensures iSts != old(iSts) ==> iSts != null && fresh(iSts)
    {
      hide Step, ListOf, Composed, AfterNested, ExtractEmbeddedPkgs, ParsePkgFile, LaunchForeignInstall, FinishForeignInstall,
           Complete, InstallSpec.Heads;
      ghost var (t, w) := (State(), device.State());
      StepRange(env, start, t, w);
      if iStep == EXTRACT_EMBEDDED_PKGS {
        AtExtract(env, t, w);
        var _ :- ExtractEmbeddedPkgsL();
        iStep := iStep + 1;
      } else if iStep == PARSE_PKG_FILE {
        AtParse(env, t, w);
        var nextStep :- ParsePkgFileImplL();
        iStep := nextStep;
      } else if iStep == LAUNCH_FOREIGN_INSTALL {
        AtForeign(env, t, w);
        LaunchForeignInstallL();
        iStep := iStep + 1;
      } else {
        AtForeign(env, t, w);
        var nested := env.nested(iCurrentComponent);
        device.Apply(nested.effect);
        var _ :- FinishForeignInstallL(nested.status);
        iStep := PARSE_PKG_FILE;
      }
      return Ok(false);
    }

    /** The switch, on the steps that find and replace a component. */
    method ExecuteReplaceL(ghost start: World) returns (r: Outcome<bool>)
      requires Safe(env, start, State(), device.State()) && FIND_AND_CHECK_COMPONENT <= iStep <= UNREGISTER_AND_DELETE_FILE
      modifies this, iScr, iSts, iFileList
      ensures Reached(Step(env, old(State()), device.State()), r)
      ensures iScr != old(iScr) ==> iScr != null && fresh(iScr)
      ensures iSts == old(iSts)
    {
      hide Step, ListOf, Composed, AfterNested, FindAndCheckComponent, GetInstalledFileList, UnregisterAndDeleteFile,
           Complete, InstallSpec.Heads;
      ghost var (t, w) := (State(), device.State());
      if iStep == FIND_AND_CHECK_COMPONENT {
        AtFind(env, t, w);
        var nextStep :- FindAndCheckComponentL();
        iStep := nextStep;
      } else if iStep == GET_INSTALLED_FILE_LIST {
        AtList(env, t, w);
        GetInstalledFileListL();
        iStep := iStep + 1;
      } else {
        AtDelete(env, t, w);
        var done :- UnregisterAndDeleteFileL();
        if done {
          iStep := iStep + 1;
        }
      }
      return Ok(false);
    }

    /** The switch, on the steps that add a component. */
    method ExecuteAddL(ghost start: World) returns (r: Outcome<bool>)
      requires Safe(env, start, State(), device.State()) && REGISTER_COMPONENT <= iStep <= SET_SCOMO_STATE
      modifies this, iScr, iSts
      ensures Reached(Step(env, old(State()), device.State()), r)
      ensures iScr == old(iScr) && iSts == old(iSts)
    {
      hide Step, ListOf, Composed, AfterNested, RegisterComponent, CopyFile, SetScomoState, Complete, InstallSpec.Heads;
      ghost var (t, w) := (State(), device.State());
      if iStep == REGISTER_COMPONENT {
        AtRegister(env, t, w);
        var _ :- RegisterComponentL();
        iStep := iStep + 1;
      } else if iStep == COPY_FILE {
        AtCopyFile(env, t, w);
        var done :- CopyFileL();
        if done {
          iStep := iStep + 1;
        }
      } else {
        AtScomo(env, t, w);
        var nextStep :- SetScomoStateL();
        iStep := nextStep;
      }
      return Ok(false);
    }

    /** One execution, from a state that the run can be in: the next configuration of
        the state machine. What a step uses is there when the step uses it. */
    method ExecuteImplL(ghost start: World) returns (r: Outcome<bool>)
      requires Safe(env, start, State(), device.State())
      modifies this, device, iScr, iSts, iFileList
      ensures Reached(Step(env, old(State()), old(device.State())), r)
      ensures iScr != old(iScr) ==> iScr != null && fresh(iScr)
      ensures iSts != old(iSts) ==> iSts != null && fresh(iSts)
    {
      hide Step, ListOf, Composed, AfterNested, Commit, Complete, InstallSpec.Heads;
      StepRange(env, start, State(), device.State());
      if iStep <= FINISH_FOREIGN_INSTALL {
        r := ExecuteNestedL(start);
      } else if iStep <= UNREGISTER_AND_DELETE_FILE {
        r := ExecuteReplaceL(start);
      } else if iStep <= SET_SCOMO_STATE {
        r := ExecuteAddL(start);
      } else {
        AtCommit(env, State(), device.State());
        CommitL();
        r := Ok(true);
      }
    }
  }

  /** A whole Install request: the task is executed until it is done or leaves. What
      becomes of the device, and what the client is told, is what Install says, after
      as many executions as it says. */
  method InstallPackage(env: Env, device: Device) returns (r: Outcome<seq<int>>, executions: nat)
    requires Lawful(env)
    modifies device
    ensures match InstallSpec.Install(env, old(device.State()))
            case Success(w, ids, n) => r == Ok(ids) && device.State() == w && executions == n
            case Failure(f, w) => r == Fail(f) && device.State() == w
  {
    hide Lawful, Step, Steps, Safe, InstallSpec.Install;
    ghost var start := device.State();
    var task := new InstallTask(env, device);
    InstallRefined(env, start);
    ghost var last := Ending(env, start);
    executions := 0;
    var done := false;
    NoStep(env, Running(START, start));
    while !done
      invariant executions <= last
      invariant done ==> executions > 0 && Steps(env, Running(START, start), executions - 1).Running?
      invariant fresh(task) && task.env == env && task.device == device && fresh(task.iFileList)
      invariant task.iScr != null ==> fresh(task.iScr)
      invariant task.iSts != null ==> fresh(task.iSts)
      invariant task.Reached(Steps(env, Running(START, start), executions), Ok(done))
      decreases last - executions, !done
    {
      AllFine(env, start, executions);
      ghost var c := Steps(env, Running(START, start), executions);
      NotOverYet(env, start, executions, last);
      StepsConcat(env, Running(START, start), executions, 1);
      OneStep(env, c.task, c.world);
      var step := task.ExecuteImplL(start);
      executions := executions + 1;
      if step.Fail? {
        LeftIsFailure(env, start, executions, last);
        return Fail(step.fault), executions;
      }
      done := step.value;
    }
    DoneMeansSuccess(env, start, executions);
    DoneExactly(env, start, executions);
    return Ok(task.iComponentIds), executions;
  }

  lemma NotOverYet(env: Env, start: World, n: nat, last: nat)
    requires Steps(env, Running(START, start), n).Running? && !Steps(env, Running(START, start), last).Running?
    ensures n < last
  {
    hide Steps;
    if n >= last {
      RunningBefore(env, Running(START, start), last, n);
    }
  }

  lemma LeftIsFailure(env: Env, start: World, n: nat, last: nat)
    requires n <= last && Steps(env, Running(START, start), n).Left?
    ensures Steps(env, Running(START, start), last) == Steps(env, Running(START, start), n)
  {
    hide Steps;
    StepsConcat(env, Running(START, start), n, last - n);
    EndedStays(env, Steps(env, Running(START, start), n), last - n);
  }

  lemma DoneExactly(env: Env, start: World, n: nat)
    requires Lawful(env) && Steps(env, Running(START, start), n).Done?
    requires n > 0 && Steps(env, Running(START, start), n - 1).Running?
    ensures InstallSpec.Install(env, start).Success? && InstallSpec.Install(env, start).executions == n
  {
    hide Steps, InstallSpec.Install, Lawful;
    InstallRefined(env, start);
    DoneMeansSuccess(env, start, n);
    var m := InstallSpec.Install(env, start).executions;
    if m < n {
      RunningBefore(env, Running(START, start), m, n - 1);
    }
  }
}
