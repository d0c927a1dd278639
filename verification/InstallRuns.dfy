/** The task refines its specification: stepping it to the end gives exactly what
    Install says, in exactly the number of executions it says. */
module InstallRuns {
  import opened Platform
  import opened PkgText
  import opened Unpack
  import opened PkgTree
  import opened Registry
  import opened InstallModel
  import opened InstallSpec

  /** The run reaches this configuration. */
  ghost predicate Ends(env: Env, c: Config<Task>, r: Config<Task>)
  {
    exists n: nat :: Steps(env, c, n) == r
  }

  lemma EndsAfter(env: Env, c: Config<Task>, m: nat, r: Config<Task>)
    requires Ends(env, Steps(env, c, m), r)
    ensures Ends(env, c, r)
  {
    hide StepConfig, Steps;
    var n: nat :| Steps(env, Steps(env, c, m), n) == r;
    StepsConcat(env, c, m, n);
  }

  lemma EndsNow(env: Env, c: Config<Task>, m: nat)
    ensures Ends(env, c, Steps(env, c, m))
  {
    hide StepConfig, Steps;
  }

  lemma NoStep(env: Env, c: Config<Task>)
    ensures Steps(env, c, 0) == c
  {
  }

  lemma OneStep(env: Env, t: Task, w: World)
    ensures Steps(env, Running(t, w), 1) == Step(env, t, w)
  {
    hide Step;
    assert Steps(env, StepConfig(env, Running(t, w)), 0) == Step(env, t, w);
  }

  lemma NextStep(env: Env, t: Task, w: World, n: nat)
    ensures Steps(env, Running(t, w), 1 + n) == Steps(env, Step(env, t, w), n)
  {
    hide Step;
  }

  // ---------------------------------------------------------------------------
  // The loop that takes files away
  // ---------------------------------------------------------------------------

  /** What was added was not there, or has been taken away before. */
  ghost predicate Coexist(disk: map<string, int>, sts: Sts) {
    forall k :: k in sts.created ==> k !in disk || k in sts.removed
  }

  function RemoveAll(disk: map<string, int>, sts: Sts, files: seq<string>): Sts
    decreases |files|
  {
    if files == [] then sts else RemoveAll(disk, RemoveFile(disk, sts, files[0]), files[1..])
  }

  lemma RemoveShows(disk: map<string, int>, sts: Sts, path: string)
    requires Coexist(disk, sts)
    ensures var r := RemoveFile(disk, sts, path);
            && r.temps == sts.temps && Coexist(disk, r)
            && ViewDisk(disk, r) == ViewDisk(disk, sts) - {Fold(path)}
  {
    hide Fold;
  }

  lemma {:induction false} RemoveAllShows(disk: map<string, int>, sts: Sts, files: seq<string>)
    requires Coexist(disk, sts)
    ensures var r := RemoveAll(disk, sts, files);
            && r.temps == sts.temps && Coexist(disk, r)
            && ViewDisk(disk, r) == ViewDisk(disk, sts) - KeysOf(files)
    decreases |files|
  {
    hide Fold, RemoveFile, ViewDisk, Coexist;
    if files == [] {
      assert ViewDisk(disk, sts) - KeysOf(files) == ViewDisk(disk, sts);
    } else {
      RemoveShows(disk, sts, files[0]);
      RemoveAllShows(disk, RemoveFile(disk, sts, files[0]), files[1..]);
      KeysCons(files);
      assert ViewDisk(disk, sts) - {Fold(files[0])} - KeysOf(files[1..]) == ViewDisk(disk, sts) - KeysOf(files);
    }
  }

  lemma KeysCons(files: seq<string>)
    requires files != []
    ensures KeysOf(files) == {Fold(files[0])} + KeysOf(files[1..])
  {
    hide Fold;
    assert files == [files[0]] + files[1..];
    forall k | k in KeysOf(files) ensures k in {Fold(files[0])} + KeysOf(files[1..]) {
      var i :| 0 <= i < |files| && Fold(files[i]) == k;
      assert i > 0 ==> files[1..][i - 1] == files[i];
    }
    forall k | k in KeysOf(files[1..]) ensures k in KeysOf(files) {
      var i :| 0 <= i < |files[1..]| && Fold(files[1..][i]) == k;
      assert files[i + 1] == files[1..][i];
    }
  }

  /** One execution for each file. */
  lemma {:induction false} DeleteLoop(env: Env, t: Task, w: World)
    requires t.step == UNREGISTER_AND_DELETE_FILE && t.sts.Some? && t.scr.Some?
    ensures Steps(env, Running(t, w), |t.fileList|)
         == Running(t.(sts := Some(RemoveAll(w.disk, t.sts.value, t.fileList)), fileList := []), w)
    decreases |t.fileList|
  {
    hide RemoveFile, Steps;
    var n := |t.fileList|;
    if n == 0 {
      assert t == t.(sts := Some(RemoveAll(w.disk, t.sts.value, t.fileList)), fileList := []);
      NoStep(env, Running(t, w));
    } else {
      var next := t.(sts := Some(RemoveFile(w.disk, t.sts.value, t.fileList[0])), fileList := t.fileList[1..]);
      assert Step(env, t, w) == Running(next, w);
      NextStep(env, t, w, n - 1);
      DeleteLoop(env, next, w);
    }
  }

  // ---------------------------------------------------------------------------
  // The loop that copies files
  // ---------------------------------------------------------------------------

  lemma FreshCons(files: seq<string>, taken: set<string>)
    requires files != []
    ensures Fresh(files, taken) <==> Fold(files[0]) !in taken && Fresh(files[1..], taken + {Fold(files[0])})
  {
    hide Fold;
    var rest := files[1..];
    assert forall i :: 0 <= i < |rest| ==> rest[i] == files[i + 1];
    if Fold(files[0]) !in taken && Fresh(rest, taken + {Fold(files[0])}) {
      forall i | 0 <= i < |files| ensures Fold(files[i]) !in taken {
        assert i > 0 ==> files[i] == rest[i - 1];
      }
      forall i, j | 0 <= i < j < |files| ensures Fold(files[i]) != Fold(files[j]) {
        assert files[j] == rest[j - 1];
        assert i > 0 ==> files[i] == rest[i - 1];
      }
    }
    if Fresh(files, taken) {
      forall i | 0 <= i < |rest| ensures Fold(rest[i]) !in taken + {Fold(files[0])} {
        assert rest[i] == files[i + 1];
      }
    }
  }

  lemma LaidCons(disk: map<string, int>, files: seq<string>)
    requires files != []
    ensures Laid(disk, files) == Laid(disk[Fold(files[0]) := FILE_SIZE], files[1..])
  {
    hide Fold, KeysOf;
    KeysCons(files);
  }

  lemma LaidNone(disk: map<string, int>)
    ensures Laid(disk, []) == disk
  {
  }

  lemma CreateShows(disk: map<string, int>, sts: Sts, path: string)
    requires Coexist(disk, sts)
    ensures var taken := ViewDisk(disk, sts).Keys + sts.temps.Keys;
            var after := sts.(created := sts.created[Fold(path) := FILE_SIZE]);
            if Fold(path) in taken then CreateFile(disk, sts, path, FILE_SIZE) == Fail(Leave(ERR_ALREADY_EXISTS))
            else
              && CreateFile(disk, sts, path, FILE_SIZE) == Ok(after)
              && ViewDisk(disk, after) == ViewDisk(disk, sts)[Fold(path) := FILE_SIZE]
              && ViewDisk(disk, after).Keys + after.temps.Keys == taken + {Fold(path)}
              && Coexist(disk, after)
  {
    hide Fold;
  }

  /** At the copying step, with the files before the index copied. */
  ghost predicate Copying(t: Task) {
    && t.step == COPY_FILE && t.sts.Some? && t.scr.Some? && t.parser.Some?
    && 0 <= t.copyIndex <= |t.parser.value.files|
    && t.found.id in t.scr.value.comps
    && t.scr.value.comps[t.found.id].files == t.parser.value.files[..t.copyIndex]
    && t.size == FILE_SIZE * t.copyIndex
  }

  function Taken(t: Task, w: World): set<string>
    requires t.sts.Some?
  {
    ViewDisk(w.disk, t.sts.value).Keys + t.sts.value.temps.Keys
  }

  /** The task after the files from the index on have been copied. */
  ghost function Copied(t: Task): Task
    requires Copying(t)
  {
    var (rec, id) := (t.parser.value, t.found.id);
    var c := t.scr.value.comps[id].(files := rec.files, size := FILE_SIZE * |rec.files|);
    t.(scr := Some(t.scr.value.(comps := t.scr.value.comps[id := c])),
       sts := Some(t.sts.value.(created := Laid(t.sts.value.created, rec.files[t.copyIndex..]))),
       size := FILE_SIZE * |rec.files|, copyIndex := |rec.files|, step := SET_SCOMO_STATE)
  }

  ghost function CopyOne(t: Task, created: map<string, int>): Task
    requires Copying(t) && t.copyIndex < |t.parser.value.files|
  {
    var path := t.parser.value.files[t.copyIndex];
    var c := t.scr.value.comps[t.found.id];
    t.(scr := Some(t.scr.value.(comps := t.scr.value.comps[t.found.id := c.(files := c.files + [path])])),
       sts := Some(t.sts.value.(created := created)),
       size := t.size + FILE_SIZE, copyIndex := t.copyIndex + 1)
  }

  lemma AtCopyFile(env: Env, t: Task, w: World)
    requires t.step == COPY_FILE
    ensures Step(env, t, w) == Resume(CopyFile(t, w.disk), w)
  {
    hide CopyFile, Resume;
  }

  lemma CopyStep(env: Env, t: Task, w: World)
    requires Copying(t) && t.copyIndex < |t.parser.value.files| && Coexist(w.disk, t.sts.value)
    ensures var path := t.parser.value.files[t.copyIndex];
            if Fold(path) in Taken(t, w) then Step(env, t, w) == Left(Leave(ERR_ALREADY_EXISTS), w)
            else
              var next := CopyOne(t, t.sts.value.created[Fold(path) := FILE_SIZE]);
              && Step(env, t, w) == Running(next, w) && Copying(next)
              && next.parser == t.parser && next.copyIndex == t.copyIndex + 1
              && Coexist(w.disk, next.sts.value) && Taken(next, w) == Taken(t, w) + {Fold(path)}
  {
    hide Fold, Coexist, ViewDisk, CreateFile, Step;
    AtCopyFile(env, t, w);
    CreateShows(w.disk, t.sts.value, t.parser.value.files[t.copyIndex]);
    var files := t.parser.value.files;
    assert files[..t.copyIndex] + [files[t.copyIndex]] == files[..t.copyIndex + 1];
    if Fold(files[t.copyIndex]) !in Taken(t, w) {
      TakenGrows(t, w, files[t.copyIndex]);
    }
  }

  lemma TakenGrows(t: Task, w: World, path: string)
    requires Copying(t) && t.copyIndex < |t.parser.value.files| && Coexist(w.disk, t.sts.value) && Fold(path) !in Taken(t, w)
    ensures var next := CopyOne(t, t.sts.value.created[Fold(path) := FILE_SIZE]);
            Coexist(w.disk, next.sts.value) && Taken(next, w) == Taken(t, w) + {Fold(path)}
  {
    hide Fold, Coexist, ViewDisk, Step;
    CreateShows(w.disk, t.sts.value, path);
    var sts := t.sts.value.(created := t.sts.value.created[Fold(path) := FILE_SIZE]);
    assert CreateFile(w.disk, t.sts.value, path, FILE_SIZE) == Ok(sts);
    assert CopyOne(t, t.sts.value.created[Fold(path) := FILE_SIZE]).sts == Some(sts);
  }

  lemma CopiedAgain(t: Task, path: string)
    requires Copying(t) && t.copyIndex < |t.parser.value.files| && path == t.parser.value.files[t.copyIndex]
    requires Copying(CopyOne(t, t.sts.value.created[Fold(path) := FILE_SIZE]))
    ensures Copied(CopyOne(t, t.sts.value.created[Fold(path) := FILE_SIZE])) == Copied(t)
  {
    hide Fold, Laid;
    var rest := t.parser.value.files[t.copyIndex..];
    LaidCons(t.sts.value.created, rest);
    assert rest[0] == path && rest[1..] == t.parser.value.files[t.copyIndex + 1..];
    var (a, b) := (Copied(CopyOne(t, t.sts.value.created[Fold(path) := FILE_SIZE])), Copied(t));
    assert a.sts == b.sts;
    assert a.scr.value.comps == b.scr.value.comps;
  }

  /** Every file that is left is created, unless one is in the way. */
  lemma {:induction false} CopyLoop(env: Env, t: Task, w: World)
    requires Copying(t) && Coexist(w.disk, t.sts.value)
    ensures var rest := t.parser.value.files[t.copyIndex..];
            if Fresh(rest, Taken(t, w)) then Steps(env, Running(t, w), |rest| + 1) == Running(Copied(t), w)
            else Ends(env, Running(t, w), Left(Leave(ERR_ALREADY_EXISTS), w))
    decreases |t.parser.value.files| - t.copyIndex
  {
    hide Fold, Coexist, ViewDisk, CreateFile, Steps, Laid, Fresh, Copied, CopyOne, Taken, Ends;
    var files := t.parser.value.files;
    var rest := files[t.copyIndex..];
    if rest == [] {
      CopyLast(env, t, w);
    } else {
      var path := files[t.copyIndex];
      CopyStep(env, t, w);
      assert rest[0] == path && rest[1..] == files[t.copyIndex + 1..];
      FreshCons(rest, Taken(t, w));
      OneStep(env, t, w);
      if Fold(path) in Taken(t, w) {
        EndsNow(env, Running(t, w), 1);
      } else {
        var next := CopyOne(t, t.sts.value.created[Fold(path) := FILE_SIZE]);
        CopyLoop(env, next, w);
        CopiedAgain(t, path);
        if Fresh(rest, Taken(t, w)) {
          NextStep(env, t, w, |rest|);
        } else {
          EndsAfter(env, Running(t, w), 1, Left(Leave(ERR_ALREADY_EXISTS), w));
        }
      }
    }
  }

  lemma CopyLast(env: Env, t: Task, w: World)
    requires Copying(t) && t.copyIndex == |t.parser.value.files|
    ensures Steps(env, Running(t, w), 1) == Running(Copied(t), w)
    ensures Fresh(t.parser.value.files[t.copyIndex..], Taken(t, w))
  {
    hide Fold, ViewDisk, CreateFile, Steps, Laid;
    OneStep(env, t, w);
    var files := t.parser.value.files;
    LaidNone(t.sts.value.created);
    assert files[..|files|] == files && files[|files|..] == [];
    var c := t.scr.value.comps[t.found.id];
    assert c.(files := files, size := FILE_SIZE * |files|) == c.(size := t.size);
  }

  // ---------------------------------------------------------------------------
  // One component
  // ---------------------------------------------------------------------------

  /** About to take the i-th package of the list, with this state in view. */
  ghost predicate At(t: Task, w: World, i: int, list: seq<Listed>, view: World, temps: Store, ids: seq<int>) {
    && t.embedded == list && t.current == i && 0 <= i <= |list|
    && t.step == (if i < |list| then PARSE_PKG_FILE else COMMIT)
    && t.sts.Some? && t.sts.value.temps == temps
    && Coexist(w.disk, t.sts.value) && ViewDisk(w.disk, t.sts.value) == view.disk
    && (if t.scrTransaction then t.scr == Some(view.scr) else t.scr == None && view.scr == w.scr)
    && t.ids == ids && !t.sifRequest
  }

  /** Parsed, and found to be installable or not. */
  ghost predicate Admitted(t: Task, w: World, i: int, list: seq<Listed>, view: World, temps: Store, ids: seq<int>, rec: Record, found: Found) {
    && t.embedded == list && t.current == i && 0 <= i < |list|
    && t.sts.Some? && t.sts.value.temps == temps
    && Coexist(w.disk, t.sts.value) && ViewDisk(w.disk, t.sts.value) == view.disk
    && t.scrTransaction && t.scr == Some(view.scr)
    && Complete(rec) && t.parser == Some(rec) && t.found == found
    && t.ids == ids && !t.sifRequest
  }

  lemma FoundInstalled(env: Env, comps: Components, rec: Record)
    requires Complete(rec)
    ensures var found := Lookup(env, comps, rec);
            && NEW_COMPONENT <= found.status <= NEWER_INSTALLED
            && (found.status > NEW_COMPONENT ==> found.id in comps)
  {
    hide View, CompareVersions;
    var i := ChosenIndex(rec.languages, env.language);
    var order := env.order(comps, rec.names[i], rec.vendors[i]);
    SearchHighest(comps, View(comps, order, rec.names[i], rec.vendors[i]), rec.version);
  }

  lemma AtParse(env: Env, t: Task, w: World)
    requires t.step == PARSE_PKG_FILE
    ensures Step(env, t, w) == Resume(ParsePkgFile(t), w)
  {
    hide ParsePkgFile, Resume;
  }

  lemma AtFind(env: Env, t: Task, w: World)
    requires t.step == FIND_AND_CHECK_COMPONENT
    ensures Step(env, t, w) == Resume(FindAndCheckComponent(env, t, w), w)
  {
    hide FindAndCheckComponent, Resume;
  }

  /** The verdict as far as it is given before anything is changed. */
  function FirstVerdict(env: Env, i: int, found: Found): Outcome<()> {
    if found.status == ALREADY_INSTALLED then Fail(Leave(ERR_SAME_VERSION))
    else if found.status == NEWER_INSTALLED then Fail(Leave(ERR_NEWER_VERSION))
    else if !env.silent && !env.confirm(i) then Fail(Leave(ERR_CANCEL))
    else Ok(())
  }

  lemma ParseStage(env: Env, t: Task, w: World, i: int, list: seq<Listed>, view: World, temps: Store, ids: seq<int>) returns (t': Task)
    requires 0 <= i < |list| && !list[i].foreign && At(t, w, i, list, view, temps, ids)
    ensures var rec := RecordAt(temps, list[i].fileName);
            if rec.Fail? then Ends(env, Running(t, w), Left(rec.fault, w))
            else
              var found := Lookup(env, view.scr.comps, rec.value);
              var verdict := FirstVerdict(env, i, found);
              if verdict.Fail? then Ends(env, Running(t, w), Left(verdict.fault, w))
              else
                && Steps(env, Running(t, w), 2) == Running(t', w)
                && Admitted(t', w, i, list, view, temps, ids, rec.value, found)
                && t'.step == (if found.status == UPGRADE then GET_INSTALLED_FILE_LIST else REGISTER_COMPONENT)
  {
    hide Fold, Parse, Steps, Step, Ends, Coexist, ViewDisk, Lookup;
    t' := t;
    AtParse(env, t, w);
    OneStep(env, t, w);
    match RecordAt(temps, list[i].fileName)
    case Fail(f) =>
      EndsNow(env, Running(t, w), 1);
    case Ok(rec) =>
      var t1 := t.(parser := Some(rec), step := FIND_AND_CHECK_COMPONENT);
      assert Step(env, t, w) == Running(t1, w);
      AtFind(env, t1, w);
      OneStep(env, t1, w);
      StepsConcat(env, Running(t, w), 1, 1);
      EndsNow(env, Running(t, w), 2);
      var found := Lookup(env, view.scr.comps, rec);
      FoundInstalled(env, view.scr.comps, rec);
      t' := t1.(scrTransaction := true, scr := Some(view.scr), found := found,
                step := if found.status == UPGRADE then GET_INSTALLED_FILE_LIST else REGISTER_COMPONENT);
  }

  lemma AtList(env: Env, t: Task, w: World)
    requires t.step == GET_INSTALLED_FILE_LIST
    ensures Step(env, t, w) == Resume(GetInstalledFileList(t), w)
  {
    hide GetInstalledFileList, Resume;
  }

  lemma AtDelete(env: Env, t: Task, w: World)
    requires t.step == UNREGISTER_AND_DELETE_FILE
    ensures Step(env, t, w) == Resume(UnregisterAndDeleteFile(t, w.disk), w)
  {
    hide UnregisterAndDeleteFile, Resume;
  }

  /** The component that is replaced goes, with all its files. */
  lemma UpgradeStage(env: Env, t: Task, w: World, i: int, list: seq<Listed>, view: World, temps: Store, ids: seq<int>, rec: Record, found: Found) returns (t': Task)
    requires Admitted(t, w, i, list, view, temps, ids, rec, found)
    requires t.step == GET_INSTALLED_FILE_LIST && found.status == UPGRADE && found.id in view.scr.comps
    ensures Steps(env, Running(t, w), |FilesOf(view.scr, found.id)| + 2) == Running(t', w)
    ensures Admitted(t', w, i, list, Cleared(view, found), temps, ids, rec, found) && t'.step == REGISTER_COMPONENT
  {
    hide Fold, Steps, Step, Coexist, ViewDisk, RemoveAll, KeysOf, Complete;
    var files := FilesOf(view.scr, found.id);
    var t1 := t.(fileList := files, step := UNREGISTER_AND_DELETE_FILE);
    AtList(env, t, w);
    OneStep(env, t, w);
    DeleteLoop(env, t1, w);
    StepsConcat(env, Running(t, w), 1, |files|);
    RemoveAllShows(w.disk, t.sts.value, files);
    var t2 := t1.(sts := Some(RemoveAll(w.disk, t.sts.value, files)), fileList := []);
    AtDelete(env, t2, w);
    OneStep(env, t2, w);
    StepsConcat(env, Running(t, w), 1 + |files|, 1);
    t' := t2.(scr := Some(view.scr.(comps := view.scr.comps - {found.id})), step := REGISTER_COMPONENT);
  }

  lemma AtRegister(env: Env, t: Task, w: World)
    requires t.step == REGISTER_COMPONENT
    ensures Step(env, t, w) == Resume(RegisterComponent(t), w)
  {
    hide RegisterComponent, Resume;
  }

  lemma AtScomo(env: Env, t: Task, w: World)
    requires t.step == SET_SCOMO_STATE
    ensures Step(env, t, w) == Resume(SetScomoState(t, env.inactive), w)
  {
    hide SetScomoState, Resume;
  }

  function SecondVerdict(view: World, temps: Store, rec: Record): Outcome<()>
    requires Complete(rec)
  {
    if !Named(Locs(rec)) then Fail(Leave(ERR_ARGUMENT))
    else if !Fresh(rec.files, view.disk.Keys + temps.Keys) then Fail(Leave(ERR_ALREADY_EXISTS))
    else Ok(())
  }

  /** The task after the component has been registered, before its files are. */
  ghost function Registered(t: Task): Task
    requires t.scr.Some? && t.parser.Some? && Complete(t.parser.value) && 0 <= t.current < |t.embedded|
  {
    var (scr, rec) := (t.scr.value, t.parser.value);
    t.(scr := Some(Scr(scr.comps[scr.nextId := Component(Locs(rec), SOFTWARE_TYPE, rec.version, [], 0, false)], scr.nextId + 1)),
       found := t.found.(id := scr.nextId), copyIndex := 0, size := 0,
       ids := if t.embedded[t.current].root then t.ids + [scr.nextId] else t.ids,
       step := COPY_FILE)
  }

  lemma RegisterStage(env: Env, t: Task, w: World)
    requires t.step == REGISTER_COMPONENT
    requires t.sts.Some? && t.scr.Some? && t.parser.Some? && Complete(t.parser.value) && 0 <= t.current < |t.embedded|
    ensures if Named(Locs(t.parser.value)) then
              Steps(env, Running(t, w), 1) == Running(Registered(t), w) && Copying(Registered(t))
            else Ends(env, Running(t, w), Left(Leave(ERR_ARGUMENT), w))
  {
    hide Steps, Step, Ends, Complete;
    AtRegister(env, t, w);
    OneStep(env, t, w);
    EndsNow(env, Running(t, w), 1);
    assert t.parser.value.files[..0] == [];
  }

  lemma ScomoStage(env: Env, t: Task, w: World)
    requires t.step == SET_SCOMO_STATE && t.scr.Some? && t.found.id in t.scr.value.comps
    ensures var (scr, id) := (t.scr.value, t.found.id);
            Steps(env, Running(t, w), 1) ==
            Running(t.(scr := Some(if env.inactive then scr else scr.(comps := scr.comps[id := scr.comps[id].(activated := true)])),
                       current := t.current + 1,
                       step := if t.current + 1 < |t.embedded| then PARSE_PKG_FILE else COMMIT), w)
  {
    hide Steps, Step;
    AtScomo(env, t, w);
    OneStep(env, t, w);
  }

  /** The new component is registered, its files are copied, and it is activated. */
  lemma AddStage(env: Env, t: Task, w: World, i: int, list: seq<Listed>, view: World, temps: Store, ids: seq<int>, rec: Record, found: Found) returns (t': Task)
    requires Admitted(t, w, i, list, view, temps, ids, rec, found) && t.step == REGISTER_COMPONENT
    ensures var verdict := SecondVerdict(view, temps, rec);
            if verdict.Fail? then Ends(env, Running(t, w), Left(verdict.fault, w))
            else
              && Steps(env, Running(t, w), |rec.files| + 3) == Running(t', w)
              && At(t', w, i + 1, list, Added(view, rec, env.inactive), temps, ids + if list[i].root then [view.scr.nextId] else [])
              && t'.scrTransaction
  {
    hide Fold, Steps, Step, Ends, Coexist, ViewDisk, Fresh, KeysOf, Complete, Named, Locs, Laid;
    RegisterStage(env, t, w);
    t' := t;
    if Named(Locs(rec)) {
      var t1 := Registered(t);
      CopyLoop(env, t1, w);
      assert rec.files[0..] == rec.files;
      assert Taken(t1, w) == view.disk.Keys + temps.Keys;
      if Fresh(rec.files, view.disk.Keys + temps.Keys) {
        var t2 := Copied(t1);
        StepsConcat(env, Running(t, w), 1, |rec.files| + 1);
        ScomoStage(env, t2, w);
        StepsConcat(env, Running(t, w), |rec.files| + 2, 1);
        LaidShows(w.disk, t.sts.value, rec.files);
        t' := Finished(t2, env.inactive);
        AddedComponent(t, rec, env.inactive);
      } else {
        EndsAfter(env, Running(t, w), 1, Left(Leave(ERR_ALREADY_EXISTS), w));
      }
    }
  }

  ghost function Finished(t: Task, inactive: bool): Task
    requires t.scr.Some? && t.found.id in t.scr.value.comps
  {
    var (scr, id) := (t.scr.value, t.found.id);
    t.(scr := Some(if inactive then scr else scr.(comps := scr.comps[id := scr.comps[id].(activated := true)])),
       current := t.current + 1,
       step := if t.current + 1 < |t.embedded| then PARSE_PKG_FILE else COMMIT)
  }

  lemma AddedComponent(t: Task, rec: Record, inactive: bool)
    requires t.step == REGISTER_COMPONENT && t.sts.Some? && t.scr.Some? && t.parser == Some(rec) && Complete(rec) && 0 <= t.current < |t.embedded|
    requires Copying(Registered(t))
    ensures Finished(Copied(Registered(t)), inactive).scr
         == Some(Scr(t.scr.value.comps[t.scr.value.nextId := ComponentOf(rec, inactive)], t.scr.value.nextId + 1))
  {
    hide Complete, Locs, Laid;
    var (comps, id) := (t.scr.value.comps, t.scr.value.nextId);
    var t2 := Copied(Registered(t));
    var c := Component(Locs(rec), SOFTWARE_TYPE, rec.version, rec.files, FILE_SIZE * |rec.files|, false);
    assert t2.scr.value.comps == comps[id := c];
    assert comps[id := c][id := c.(activated := true)] == comps[id := c.(activated := true)];
  }

  lemma LaidShows(disk: map<string, int>, sts: Sts, files: seq<string>)
    requires Coexist(disk, sts) && Fresh(files, ViewDisk(disk, sts).Keys + sts.temps.Keys)
    ensures var r := sts.(created := Laid(sts.created, files));
            Coexist(disk, r) && ViewDisk(disk, r) == Laid(ViewDisk(disk, sts), files)
  {
    hide Fold;
    var view := ViewDisk(disk, sts);
    forall k | k in KeysOf(files) ensures k !in view {
      var i :| 0 <= i < |files| && Fold(files[i]) == k;
    }
    LaidOver(disk, sts, KeysOf(files));
  }

  lemma LaidOver(disk: map<string, int>, sts: Sts, keys: set<string>)
    requires Coexist(disk, sts) && forall k :: k in keys ==> k !in ViewDisk(disk, sts)
    ensures var more := map k | k in keys :: FILE_SIZE;
            var r := sts.(created := sts.created + more);
            Coexist(disk, r) && ViewDisk(disk, r) == ViewDisk(disk, sts) + more
  {
  }

  /** The executions for one component do what InstallOne says. */
  lemma OneComponent(env: Env, t: Task, w: World, i: int, list: seq<Listed>, view: World, temps: Store, ids: seq<int>) returns (t': Task)
    requires 0 <= i < |list| && !list[i].foreign && At(t, w, i, list, view, temps, ids)
    ensures var next := InstallOne(env, i, view, temps, list[i].fileName);
            if next.Fail? then Ends(env, Running(t, w), Left(next.fault, w))
            else
              && Steps(env, Running(t, w), CostOne(env, i, view, temps, list[i].fileName)) == Running(t', w)
              && At(t', w, i + 1, list, next.value, temps, ids + if list[i].root then [view.scr.nextId] else [])
              && t'.scrTransaction
  {
    hide Fold, Parse, Steps, Step, Ends, Coexist, ViewDisk, Lookup, At, Admitted, Fresh, Named, Locs, Added;
    t' := ParseStage(env, t, w, i, list, view, temps, ids);
    var recAt := RecordAt(temps, list[i].fileName);
    if recAt.Ok? {
      var rec := recAt.value;
      var found := Lookup(env, view.scr.comps, rec);
      FoundInstalled(env, view.scr.comps, rec);
      if FirstVerdict(env, i, found).Ok? {
        var k := 2;
        if found.status == UPGRADE {
          t' := UpgradeStage(env, t', w, i, list, view, temps, ids, rec, found);
          k := 4 + |FilesOf(view.scr, found.id)|;
          StepsConcat(env, Running(t, w), 2, |FilesOf(view.scr, found.id)| + 2);
        }
        t' := AddStage(env, t', w, i, list, Cleared(view, found), temps, ids, rec, found);
        StepsConcat(env, Running(t, w), k, |rec.files| + 3);
        match SecondVerdict(Cleared(view, found), temps, rec)
        case Fail(f) => EndsAfter(env, Running(t, w), k, Left(f, w));
        case Ok(_) =>
      }
    }
  }

  // ---------------------------------------------------------------------------
  // All components, and the nested installations before them
  // ---------------------------------------------------------------------------

  lemma NextId(env: Env, i: int, view: World, temps: Store, fileName: string)
    requires InstallOne(env, i, view, temps, fileName).Ok?
    ensures InstallOne(env, i, view, temps, fileName).value.scr.nextId == view.scr.nextId + 1
  {
    hide Lookup, RecordAt, Verdict, KeysOf, Laid, ComponentOf;
  }

  lemma {:induction false} AllComponents(env: Env, t: Task, w: World, i: nat, list: seq<Listed>, view: World, temps: Store, ids: seq<int>) returns (t': Task)
    requires i <= |list| && (forall j :: i <= j < |list| ==> !list[j].foreign) && At(t, w, i, list, view, temps, ids)
    ensures var last := InstallFrom(env, list, i, view, temps);
            if last.Fail? then Ends(env, Running(t, w), Left(last.fault, w))
            else
              && Steps(env, Running(t, w), CostFrom(env, list, i, view, temps)) == Running(t', w)
              && At(t', w, |list|, list, last.value, temps, ids + IdsFrom(list, i, view.scr.nextId))
              && (i < |list| || t.scrTransaction ==> t'.scrTransaction)
    decreases |list| - i
  {
    hide Steps, Ends, At, InstallOne, CostOne;
    t' := t;
    if i == |list| {
      NoStep(env, Running(t, w));
      assert ids + IdsFrom(list, i, view.scr.nextId) == ids;
    } else {
      t' := OneComponent(env, t, w, i, list, view, temps, ids);
      var one := InstallOne(env, i, view, temps, list[i].fileName);
      if one.Ok? {
        NextId(env, i, view, temps, list[i].fileName);
        var cost := CostOne(env, i, view, temps, list[i].fileName);
        var first := if list[i].root then [view.scr.nextId] else [];
        t' := AllComponents(env, t', w, i + 1, list, one.value, temps, ids + first);
        match InstallFrom(env, list, i + 1, one.value, temps)
        case Fail(f) =>
          EndsAfter(env, Running(t, w), cost, Left(f, w));
        case Ok(_) =>
          StepsConcat(env, Running(t, w), cost, CostFrom(env, list, i + 1, one.value, temps));
          assert ids + first + IdsFrom(list, i + 1, one.value.scr.nextId) == ids + IdsFrom(list, i, view.scr.nextId);
      }
    }
  }

  /** About to take the i-th package, with nothing of our own done yet. */
  ghost predicate Waiting(t: Task, i: int, list: seq<Listed>, temps: Store) {
    && t.embedded == list && t.current == i && 0 <= i < |list| && t.step == PARSE_PKG_FILE
    && t.sts == Some(Sts(temps, map[], {})) && !t.scrTransaction && t.scr == None
    && t.ids == [] && !t.sifRequest
  }

  lemma AtForeign(env: Env, t: Task, w: World)
    requires t.step == LAUNCH_FOREIGN_INSTALL || t.step == FINISH_FOREIGN_INSTALL
    ensures Step(env, t, w) ==
            if t.step == LAUNCH_FOREIGN_INSTALL then Resume(LaunchForeignInstall(t), w)
            else Resume(FinishForeignInstall(t, env.nested(t.current).status), env.nested(t.current).effect(w))
  {
    hide LaunchForeignInstall, FinishForeignInstall, Resume;
  }

  lemma ForeignOne(env: Env, t: Task, w: World, i: nat, list: seq<Listed>, temps: Store) returns (t': Task)
    requires Waiting(t, i, list, temps) && list[i].foreign && i + 1 < |list|
    ensures var nested := env.nested(i);
            if nested.status < 0 then Ends(env, Running(t, w), Left(Leave(nested.status), nested.effect(w)))
            else Steps(env, Running(t, w), 3) == Running(t', nested.effect(w)) && Waiting(t', i + 1, list, temps)
  {
    hide Steps, Step, Ends;
    AtParse(env, t, w);
    OneStep(env, t, w);
    var t1 := t.(parser := None, step := LAUNCH_FOREIGN_INSTALL);
    AtForeign(env, t1, w);
    OneStep(env, t1, w);
    var t2 := t1.(sifRequest := true, step := FINISH_FOREIGN_INSTALL);
    AtForeign(env, t2, w);
    OneStep(env, t2, w);
    StepsConcat(env, Running(t, w), 1, 1);
    StepsConcat(env, Running(t, w), 2, 1);
    EndsNow(env, Running(t, w), 3);
    t' := t2.(sifRequest := false, current := i + 1, step := PARSE_PKG_FILE);
  }

  lemma {:induction false} ForeignPhase(env: Env, t: Task, w: World, i: nat, f: nat, list: seq<Listed>, temps: Store) returns (t': Task)
    requires i <= f < |list| && (forall j :: 0 <= j < f ==> list[j].foreign) && Waiting(t, i, list, temps)
    ensures var phase := Foreign(env, i, f, w);
            if phase.Stopped? then Ends(env, Running(t, w), Left(Leave(phase.status), phase.world))
            else Steps(env, Running(t, w), 3 * (f - i)) == Running(t', phase.world) && Waiting(t', f, list, temps)
    decreases f - i
  {
    hide Steps, Ends, Waiting;
    t' := t;
    if i == f {
      NoStep(env, Running(t, w));
    } else {
      t' := ForeignOne(env, t, w, i, list, temps);
      var nested := env.nested(i);
      if nested.status >= 0 {
        t' := ForeignPhase(env, t', nested.effect(w), i + 1, f, list, temps);
        match Foreign(env, i + 1, f, nested.effect(w))
        case Stopped(status, w1) => EndsAfter(env, Running(t, w), 3, Left(Leave(status), w1));
        case Through(_) => StepsConcat(env, Running(t, w), 3, 3 * (f - (i + 1)));
      }
    }
  }

  // ---------------------------------------------------------------------------
  // The sorted list
  // ---------------------------------------------------------------------------

  /** A reference package is the only root, and foreign packages come first. */
  ghost predicate Ordered(list: seq<Listed>, f: nat, root: nat) {
    && f <= root < |list|
    && (forall j :: 0 <= j < f ==> list[j].foreign)
    && (forall j :: f <= j < |list| ==> !list[j].foreign)
    && (forall j :: 0 <= j < |list| ==> (list[j].root <==> j == root))
  }

  lemma CountTwice(list: seq<Listed>, i: nat, j: nat)
    requires i < j < |list| && list[i] == list[j]
    ensures multiset(list)[list[i]] >= 2
  {
    assert list == list[..i] + [list[i]] + list[i + 1..j] + [list[j]] + list[j + 1..];
  }

  lemma CountOnce(list: seq<Listed>, e: Listed)
    requires list != [] && list[0] == e && forall j :: 1 <= j < |list| ==> list[j] != e
    ensures multiset(list)[e] == 1
  {
    assert list == [list[0]] + list[1..];
    assert e !in list[1..];
  }

  /** There is at least one component left after the foreign ones: the tree has a
      reference package at its root, and the sort, stable or not, only permutes. */
  lemma SortedList(flat: seq<Aux>, list: seq<Listed>) returns (root: nat)
    requires TreeShaped(flat) && Sorts(Listing(flat), list)
    ensures Ordered(list, Heads(list), root)
  {
    var input := Listing(flat);
    var e := input[0];
    forall j | 1 <= j < |input| ensures !input[j].root {
      assert WithinRun(flat, j, 0);
    }
    CountOnce(input, e);
    assert e in multiset(input) && multiset(input) == multiset(list);
    assert e in list;
    root :| 0 <= root < |list| && list[root] == e;
    forall j | 0 <= j < |list| ensures list[j].root <==> j == root {
      assert list[j] in multiset(list);
      assert list[j] in input;
      if list[j].root && j < root {
        CountTwice(list, j, root);
      } else if list[j].root && root < j {
        CountTwice(list, root, j);
      }
    }
    var f := Heads(list);
    forall j | f <= j < |list| ensures !list[j].foreign {
      if j > f {
        assert AuxNodeSorter(list[f], list[j]) <= 0;
      }
    }
  }

  /** The identifier of the root is the only one reported. */
  lemma {:induction false} OneId(list: seq<Listed>, f: nat, root: nat, i: nat, nextId: int)
    requires Ordered(list, f, root) && i <= |list|
    ensures IdsFrom(list, i, nextId) == if i <= root then [nextId + (root - i)] else []
    decreases |list| - i
  {
    if i < |list| {
      OneId(list, f, root, i + 1, nextId + 1);
    }
  }

  // ---------------------------------------------------------------------------
  // The whole run
  // ---------------------------------------------------------------------------

  lemma {:induction false} EndedStays(env: Env, c: Config<Task>, m: nat)
    requires !c.Running?
    ensures Steps(env, c, m) == c
    decreases m
  {
    if m > 0 {
      EndedStays(env, c, m - 1);
    }
  }

  lemma RunningBefore(env: Env, c: Config<Task>, m: nat, n: nat)
    requires m <= n && Steps(env, c, n).Running?
    ensures Steps(env, c, m).Running?
  {
    hide Steps;
    StepsConcat(env, c, m, n - m);
    if !Steps(env, c, m).Running? {
      EndedStays(env, Steps(env, c, m), n - m);
    }
  }

  lemma AtExtract(env: Env, t: Task, w: World)
    requires t.step == EXTRACT_EMBEDDED_PKGS
    ensures Step(env, t, w) == Resume(ExtractEmbeddedPkgs(env, t, w), w)
  {
    hide ExtractEmbeddedPkgs, Resume;
  }

  lemma AtCommit(env: Env, t: Task, w: World)
    requires t.step == COMMIT
    ensures Step(env, t, w) == Commit(t, w)
  {
    hide Commit;
  }

  lemma ExtractStage(env: Env, w: World) returns (t': Task, root: nat)
    requires Lawful(env)
    ensures var b := Build(DiskStore(w.disk), env.path, env.data, PRIVATE_DIR, [], -1);
            if b.Fail? then Ends(env, Running(START, w), Left(b.fault, w))
            else
              var list := env.sort(Listing(b.value.flat));
              && Steps(env, Running(START, w), 1) == Running(t', w)
              && Waiting(t', 0, list, NewTemps(b.value.store, w.disk)) && Ordered(list, Heads(list), root)
  {
    hide Build, Steps, Step, Ends, Sorts, Listing, NewTemps, DiskStore;
    t', root := START, 0;
    AtExtract(env, START, w);
    OneStep(env, START, w);
    EndsNow(env, Running(START, w), 1);
    match Build(DiskStore(w.disk), env.path, env.data, PRIVATE_DIR, [], -1)
    case Fail(f) =>
    case Ok(b) =>
      ListShape(DiskStore(w.disk), env.path, env.data, PRIVATE_DIR);
      root := SortedList(b.flat, env.sort(Listing(b.flat)));
      t' := START.(sts := Some(Sts(NewTemps(b.store, w.disk), map[], {})),
                   embedded := env.sort(Listing(b.flat)), step := PARSE_PKG_FILE);
  }

  lemma WaitingIsAt(t: Task, w: World, i: int, list: seq<Listed>, temps: Store)
    requires Waiting(t, i, list, temps)
    ensures At(t, w, i, list, w, temps, [])
  {
    assert ViewDisk(w.disk, t.sts.value) == w.disk;
  }

  lemma CommitStage(env: Env, t: Task, w: World, list: seq<Listed>, view: World, temps: Store, ids: seq<int>)
    requires At(t, w, |list|, list, view, temps, ids) && t.scrTransaction
    ensures Steps(env, Running(t, w), 1) == Done(t, view) && t.ids == ids
  {
    hide Steps, Step, ViewDisk;
    AtCommit(env, t, w);
    OneStep(env, t, w);
  }

  /** Refinement: a run ends, in the state, with the identifiers and after the
      number of executions that Install says. */
  ghost predicate Refines(env: Env, w: World, r: Result) {
    match r
    case Failure(fault, w1) => Ends(env, Running(START, w), Left(fault, w1))
    case Success(w2, ids, n) =>
      && (forall m :: 0 <= m < n ==> Steps(env, Running(START, w), m).Running?)
      && var last := Steps(env, Running(START, w), n);
         last.Done? && last.world == w2 && last.task.ids == ids
  }

  lemma InstallRefined(env: Env, w: World)
    requires Lawful(env)
    ensures Refines(env, w, Install(env, w))
  {
    hide Build, Steps, Step, Ends, Listing, NewTemps, DiskStore, Waiting, At, InstallFrom, CostFrom, Foreign;
    var start := Running(START, w);
    var t, root := ExtractStage(env, w);
    match Build(DiskStore(w.disk), env.path, env.data, PRIVATE_DIR, [], -1)
    case Fail(_) =>
    case Ok(b) =>
      var list := env.sort(Listing(b.flat));
      var f := Heads(list);
      var temps := NewTemps(b.store, w.disk);
      t := ForeignPhase(env, t, w, 0, f, list, temps);
      match Foreign(env, 0, f, w)
      case Stopped(status, w1) =>
        EndsAfter(env, start, 1, Left(Leave(status), w1));
      case Through(w1) =>
        StepsConcat(env, start, 1, 3 * f);
        WaitingIsAt(t, w1, f, list, temps);
        OwnPhase(env, w, w1, t, f, list, temps);
  }

  lemma OwnPhase(env: Env, w: World, w1: World, t: Task, f: nat, list: seq<Listed>, temps: Store)
    requires f < |list| && (forall j :: f <= j < |list| ==> !list[j].foreign)
    requires At(t, w1, f, list, w1, temps, [])
    requires Steps(env, Running(START, w), 1 + 3 * f) == Running(t, w1)
    ensures var last := InstallFrom(env, list, f, w1, temps);
            if last.Fail? then Ends(env, Running(START, w), Left(last.fault, w1))
            else Refines(env, w, Success(last.value, IdsFrom(list, f, w1.scr.nextId), 2 + 3 * f + CostFrom(env, list, f, w1, temps)))
  {
    hide Steps, Step, Ends, At, InstallFrom, CostFrom;
    var start := Running(START, w);
    var t' := AllComponents(env, t, w1, f, list, w1, temps, []);
    match InstallFrom(env, list, f, w1, temps)
    case Fail(fault) =>
      EndsAfter(env, start, 1 + 3 * f, Left(fault, w1));
    case Ok(w2) =>
      var ids := IdsFrom(list, f, w1.scr.nextId);
      assert [] + ids == ids;
      var cost := CostFrom(env, list, f, w1, temps);
      StepsConcat(env, start, 1 + 3 * f, cost);
      CommitStage(env, t', w1, list, w2, temps, ids);
      var n := 1 + 3 * f + cost;
      StepsConcat(env, start, n, 1);
      forall m | 0 <= m < n + 1 ensures Steps(env, start, m).Running? {
        RunningBefore(env, start, m, n);
      }
  }
}
