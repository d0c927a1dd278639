/** What holds in every state an Install task can reach, and what it leaves behind
    when it ends early. */
module InstallSafety {
  import opened Platform
  import opened PkgText
  import opened PkgTree
  import opened Registry
  import opened InstallModel
  import opened InstallSpec
  import opened InstallRuns

  /** The device after the first k nested installations. */
  ghost function AfterNested(env: Env, k: nat, w: World): World {
    if k == 0 then w else env.nested(k - 1).effect(AfterNested(env, k - 1, w))
  }

  /** The list the run works through, if extraction succeeds. */
  ghost function ListOf(env: Env, w: World): seq<Listed> {
    match Build(DiskStore(w.disk), env.path, env.data, PRIVATE_DIR, [], -1)
    case Fail(_) => []
    case Ok(b) => env.sort(Listing(b.flat))
  }

  /** A reference package is left when all the foreign ones have been dealt with. */
  ghost predicate Composed(list: seq<Listed>) {
    exists root :: Ordered(list, Heads(list), root)
  }

  /** What each step relies on. */
  ghost predicate Positioned(t: Task) {
    var f := Heads(t.embedded);
    && EXTRACT_EMBEDDED_PKGS < t.step <= COMMIT && t.sts.Some?
    && 0 <= t.current <= |t.embedded| && (t.current == |t.embedded| <==> t.step == COMMIT)
    && (t.scrTransaction <==> t.scr.Some?)
    && (t.scrTransaction ==> f <= t.current)
    && (t.sifRequest <==> t.step == FINISH_FOREIGN_INSTALL)
    && (t.step == LAUNCH_FOREIGN_INSTALL || t.step == FINISH_FOREIGN_INSTALL ==> t.current < f)
    && (FIND_AND_CHECK_COMPONENT <= t.step ==> f <= t.current && t.parser.Some? && Complete(t.parser.value))
    && (GET_INSTALLED_FILE_LIST <= t.step ==> t.scrTransaction)
    && (t.step in {GET_INSTALLED_FILE_LIST, UNREGISTER_AND_DELETE_FILE, COPY_FILE, SET_SCOMO_STATE} ==> t.found.id in t.scr.value.comps)
    && (t.step == COPY_FILE ==> 0 <= t.copyIndex)
  }

  function Min(a: int, b: int): int {
    if a < b then a else b
  }

  /** The device is as the nested installations left it. */
  ghost predicate Safe(env: Env, w: World, t: Task, now: World) {
    if t.step == EXTRACT_EMBEDDED_PKGS then t == START && now == w
    else
      && Positioned(t) && t.embedded == ListOf(env, w) && Composed(t.embedded)
      && now == AfterNested(env, Min(t.current, Heads(t.embedded)), w)
      && Succeeded(env, Min(t.current, Heads(t.embedded)))
  }

  /** The number of nested installations from the i-th on that are run to their end,
      of those before position f: all of them, or those up to the first that fails. */
  function Ended(env: Env, i: nat, f: nat): nat
    requires i <= f
    decreases f - i
  {
    if i == f then 0 else if env.nested(i).status < 0 then 1 else 1 + Ended(env, i + 1, f)
  }

  predicate Succeeded(env: Env, k: int) {
    forall i :: 0 <= i < k ==> env.nested(i).status >= 0
  }

  lemma {:induction false} EndedCount(env: Env, i: nat, k: nat, f: nat)
    requires i <= k <= f && forall j :: i <= j < k ==> env.nested(j).status >= 0
    requires k < f ==> env.nested(k).status < 0
    ensures Ended(env, i, f) == if k < f then k - i + 1 else f - i
    decreases k - i
  {
    if i < k {
      EndedCount(env, i + 1, k, f);
    }
  }

  /** What a run that has left leaves behind: what the nested installations did that
      came to their end. */
  ghost predicate Untouched(env: Env, w: World, now: World) {
    now == AfterNested(env, Ended(env, 0, Heads(ListOf(env, w))), w)
  }

  ghost predicate Fine(env: Env, w: World, c: Config<Task>) {
    match c
    case Running(t, now) => Safe(env, w, t, now)
    case Left(_, now) => Untouched(env, w, now)
    case Done(t, now) =>
      exists before :: Safe(env, w, t, before) && t.step == COMMIT && Commit(t, before) == c
  }

  lemma ExtractKeeps(env: Env, w: World)
    requires Lawful(env)
    ensures Fine(env, w, Step(env, START, w))
  {
    hide Build, Sorts, Listing, NewTemps, DiskStore, Step, Heads;
    AtExtract(env, START, w);
    assert AfterNested(env, 0, w) == w;
    match Build(DiskStore(w.disk), env.path, env.data, PRIVATE_DIR, [], -1)
    case Fail(f) =>
    case Ok(b) =>
      ListShape(DiskStore(w.disk), env.path, env.data, PRIVATE_DIR);
      var root := SortedList(b.flat, env.sort(Listing(b.flat)));
  }

  lemma RootLeft(list: seq<Listed>)
    requires Composed(list)
    ensures Heads(list) < |list|
    ensures forall j :: 0 <= j < |list| ==> (list[j].foreign <==> j < Heads(list))
  {
  }

  lemma AtUntouched(env: Env, w: World, t: Task, now: World)
    requires Safe(env, w, t, now) && t.step != EXTRACT_EMBEDDED_PKGS && Heads(t.embedded) <= t.current
    ensures Untouched(env, w, now)
  {
    hide Heads, ListOf, Composed;
    EndedCount(env, 0, Heads(t.embedded), Heads(t.embedded));
  }

  /** The steps before our own transaction is opened. */
  lemma NestedKeeps(env: Env, w: World, t: Task, now: World)
    requires Safe(env, w, t, now) && PARSE_PKG_FILE <= t.step <= FINISH_FOREIGN_INSTALL
    ensures Fine(env, w, Step(env, t, now))
  {
    hide Heads, ListOf, Composed, Step, HandleLines, LinesOf, Complete, Fold, Untouched;
    RootLeft(t.embedded);
    if t.step == PARSE_PKG_FILE {
      AtParse(env, t, now);
      if !t.embedded[t.current].foreign {
        AtUntouched(env, w, t, now);
      }
    } else {
      AtForeign(env, t, now);
      if t.step == FINISH_FOREIGN_INSTALL {
        assert env.nested(t.current).effect(now) == AfterNested(env, t.current + 1, w);
        if env.nested(t.current).status < 0 {
          NestedUntouched(env, w, t.current);
        }
      }
    }
  }

  lemma NestedUntouched(env: Env, w: World, k: nat)
    requires k < Heads(ListOf(env, w)) && Succeeded(env, k) && env.nested(k).status < 0
    ensures Untouched(env, w, AfterNested(env, k + 1, w))
  {
    hide Heads, ListOf;
    EndedCount(env, 0, k, Heads(ListOf(env, w)));
  }

  /** Looking for the component, and taking away what it replaces. */
  lemma ReplaceKeeps(env: Env, w: World, t: Task, now: World)
    requires Safe(env, w, t, now) && FIND_AND_CHECK_COMPONENT <= t.step <= UNREGISTER_AND_DELETE_FILE
    ensures Fine(env, w, Step(env, t, now))
  {
    hide Heads, ListOf, Composed, Step, Lookup, Complete, RemoveFile, Untouched, AfterNested;
    AtUntouched(env, w, t, now);
    if t.step == FIND_AND_CHECK_COMPONENT {
      AtFind(env, t, now);
      var scr := if t.scrTransaction then t.scr else Some(now.scr);
      FoundInstalled(env, scr.value.comps, t.parser.value);
    } else if t.step == GET_INSTALLED_FILE_LIST {
      AtList(env, t, now);
    } else {
      AtDelete(env, t, now);
    }
  }

  /** Registering a component, copying its files and activating it. */
  lemma AddKeeps(env: Env, w: World, t: Task, now: World)
    requires Safe(env, w, t, now) && REGISTER_COMPONENT <= t.step <= SET_SCOMO_STATE
    ensures Fine(env, w, Step(env, t, now))
  {
    hide Heads, ListOf, Composed, Step, Complete, CreateFile, Named, Locs, Untouched, AfterNested;
    AtUntouched(env, w, t, now);
    if t.step == REGISTER_COMPONENT {
      AtRegister(env, t, now);
    } else if t.step == COPY_FILE {
      AtCopyFile(env, t, now);
    } else {
      AtScomo(env, t, now);
    }
  }

  lemma CommitKeeps(env: Env, w: World, t: Task, now: World)
    requires Safe(env, w, t, now) && t.step == COMMIT
    ensures Step(env, t, now) == Done(t, World(ViewDisk(now.disk, t.sts.value), t.scr.value))
    ensures Fine(env, w, Step(env, t, now))
  {
    hide Heads, ListOf, Composed, Step, ViewDisk, AfterNested;
    AtCommit(env, t, now);
  }

  /** Every reachable configuration is fine. */
  lemma {:induction false} AllFine(env: Env, w: World, n: nat)
    requires Lawful(env)
    ensures Fine(env, w, Steps(env, Running(START, w), n))
    decreases n
  {
    hide Step, Fine;
    if n == 0 {
      StartFine(env, w);
    } else {
      var c := Steps(env, Running(START, w), n - 1);
      AllFine(env, w, n - 1);
      StepsConcat(env, Running(START, w), n - 1, 1);
      NextFine(env, w, c);
    }
  }

  lemma StartFine(env: Env, w: World)
    ensures Fine(env, w, Running(START, w))
  {
  }

  lemma NextFine(env: Env, w: World, c: Config<Task>)
    requires Lawful(env) && Fine(env, w, c)
    ensures Fine(env, w, Steps(env, c, 1))
  {
    hide Step, Safe, Positioned;
    if c.Running? {
      OneStep(env, c.task, c.world);
      StepRange(env, w, c.task, c.world);
      if c.task.step == EXTRACT_EMBEDDED_PKGS {
        ExtractKeeps(env, w);
      } else if c.task.step <= FINISH_FOREIGN_INSTALL {
        NestedKeeps(env, w, c.task, c.world);
      } else if c.task.step <= UNREGISTER_AND_DELETE_FILE {
        ReplaceKeeps(env, w, c.task, c.world);
      } else if c.task.step <= SET_SCOMO_STATE {
        AddKeeps(env, w, c.task, c.world);
      } else {
        CommitKeeps(env, w, c.task, c.world);
      }
    } else {
      EndedStays(env, c, 1);
    }
  }

  lemma StepRange(env: Env, w: World, t: Task, now: World)
    requires Safe(env, w, t, now)
    ensures EXTRACT_EMBEDDED_PKGS <= t.step <= COMMIT
    ensures t.step == EXTRACT_EMBEDDED_PKGS ==> t == START && now == w
  {
    hide Heads, ListOf, Composed;
  }

  // ---------------------------------------------------------------------------
  // Termination
  // ---------------------------------------------------------------------------

  /** What is left to do: extraction, packages, steps of a package, turns of a loop. */
  datatype Measure = Measure(extraction: nat, packages: int, steps: int, turns: nat)

  function Ahead(t: Task): Measure {
    Measure(if t.step == EXTRACT_EMBEDDED_PKGS then 1 else 0,
            |t.embedded| - t.current,
            COMMIT - t.step,
            if t.step == UNREGISTER_AND_DELETE_FILE then |t.fileList|
            else if t.step == COPY_FILE && t.parser.Some? && t.copyIndex < |t.parser.value.files| && t.copyIndex >= 0 then |t.parser.value.files| - t.copyIndex
            else 0)
  }

  predicate Less(a: Measure, b: Measure) {
    || a.extraction < b.extraction
    || (a.extraction == b.extraction && (a.packages < b.packages
    || (a.packages == b.packages && (a.steps < b.steps
    || (a.steps == b.steps && a.turns < b.turns)))))
  }

  lemma StepShrinks(env: Env, t: Task, w: World)
    requires Positioned(t) || t == START
    requires Step(env, t, w).Running?
    ensures Less(Ahead(Step(env, t, w).task), Ahead(t))
  {
    hide Step, Build, Parse, Lookup, Complete, RemoveFile, CreateFile, Named, Locs, Listing, NewTemps, DiskStore, Heads;
    if t.step == EXTRACT_EMBEDDED_PKGS {
      AtExtract(env, t, w);
    } else if t.step == PARSE_PKG_FILE {
      AtParse(env, t, w);
    } else if t.step <= FINISH_FOREIGN_INSTALL {
      AtForeign(env, t, w);
    } else if t.step == FIND_AND_CHECK_COMPONENT {
      AtFind(env, t, w);
    } else if t.step == GET_INSTALLED_FILE_LIST {
      AtList(env, t, w);
    } else if t.step == UNREGISTER_AND_DELETE_FILE {
      AtDelete(env, t, w);
    } else if t.step == REGISTER_COMPONENT {
      AtRegister(env, t, w);
    } else if t.step == COPY_FILE {
      AtCopyFile(env, t, w);
    } else if t.step == SET_SCOMO_STATE {
      AtScomo(env, t, w);
    } else {
      AtCommit(env, t, w);
    }
  }

  /** Every execution that does not end the run lessens the lexicographic measure,
      whose parts are never negative. */
  lemma MeasureDecreases(env: Env, w: World, n: nat)
    requires Lawful(env) && Steps(env, Running(START, w), n + 1).Running?
    ensures Steps(env, Running(START, w), n).Running?
    ensures var before := Ahead(Steps(env, Running(START, w), n).task);
            var after := Ahead(Steps(env, Running(START, w), n + 1).task);
            Less(after, before) && before.packages >= 0 && before.steps >= 0
  {
    hide Step, Steps, Less, ListOf, Composed, AfterNested, Heads, Complete;
    RunningBefore(env, Running(START, w), n, n + 1);
    var c := Steps(env, Running(START, w), n);
    AllFine(env, w, n);
    StepsConcat(env, Running(START, w), n, 1);
    OneStep(env, c.task, c.world);
    StepShrinks(env, c.task, c.world);
  }

  // ---------------------------------------------------------------------------
  // The theorems
  // ---------------------------------------------------------------------------

  /** Foreign first: the registry transaction is open only when no foreign package
      is left, so no nested installation runs inside it; the position is in range
      wherever the list is read; and Commit finds both transactions open. */
  lemma ForeignFirst(env: Env, w: World, n: nat)
    requires Lawful(env) && Steps(env, Running(START, w), n).Running?
    ensures var t := Steps(env, Running(START, w), n).task;
            && (t.sifRequest ==> !t.scrTransaction)
            && (t.scrTransaction ==> 0 <= t.current && forall j :: t.current <= j < |t.embedded| ==> !t.embedded[j].foreign)
            && (PARSE_PKG_FILE <= t.step < COMMIT ==> 0 <= t.current < |t.embedded|)
            && (t.step == COMMIT ==> t.sts.Some? && t.scr.Some?)
  {
    hide Step, Steps, ListOf, Composed, AfterNested;
    AllFine(env, w, n);
    var c := Steps(env, Running(START, w), n);
    if c.task.step != EXTRACT_EMBEDDED_PKGS {
      RootLeft(c.task.embedded);
    }
  }

  /** All or nothing: whatever prefix of the run has been executed, unless it has
      finished the device is exactly as the nested installations left it that had
      ended: those before the position of a run under way, and for a run that has left
      all of them or those up to the first that failed. */
  lemma AllOrNothing(env: Env, w: World, n: nat)
    requires Lawful(env)
    ensures var c := Steps(env, Running(START, w), n);
            var f := Heads(ListOf(env, w));
            && (c.Running? ==> 0 <= c.task.current && Succeeded(env, Min(c.task.current, f))
                               && c.world == AfterNested(env, Min(c.task.current, f), w))
            && (c.Left? ==> c.world == AfterNested(env, Ended(env, 0, f), w))
  {
    hide Step, Steps, ListOf, Composed;
    AllFine(env, w, n);
    assert AfterNested(env, 0, w) == w;
  }

  lemma {:induction false} EndedAtMost(env: Env, i: nat, f: nat)
    requires i <= f
    ensures Ended(env, i, f) <= f - i
    decreases f - i
  {
    if i < f && env.nested(i).status >= 0 {
      EndedAtMost(env, i + 1, f);
    }
  }

  lemma Unfinished(env: Env, w: World, n: nat) returns (k: nat)
    requires Lawful(env) && !Steps(env, Running(START, w), n).Done?
    ensures k <= Heads(ListOf(env, w)) && Steps(env, Running(START, w), n).world == AfterNested(env, k, w)
  {
    hide Step, Steps, ListOf, AfterNested;
    AllOrNothing(env, w, n);
    var c := Steps(env, Running(START, w), n);
    var f := Heads(ListOf(env, w));
    EndedAtMost(env, 0, f);
    k := if c.Running? then Min(c.task.current, f) else Ended(env, 0, f);
  }

  /** Without foreign packages nothing at all changes. */
  lemma NothingForeign(env: Env, w: World, n: nat)
    requires Lawful(env) && forall j :: 0 <= j < |ListOf(env, w)| ==> !ListOf(env, w)[j].foreign
    ensures var c := Steps(env, Running(START, w), n);
            !c.Done? ==> c.world == w
  {
    hide Step, Steps, ListOf;
    assert Heads(ListOf(env, w)) == 0;
    if !Steps(env, Running(START, w), n).Done? {
      var k := Unfinished(env, w, n);
    }
  }

  /** A nested installation is only ever started before anything of our own is
      written, and the device the transactions start from is the one it left. */
  lemma TransactionBase(env: Env, w: World, n: nat)
    requires Lawful(env) && Steps(env, Running(START, w), n).Running?
    ensures var c := Steps(env, Running(START, w), n);
            c.task.scrTransaction ==> c.world == AfterNested(env, Heads(ListOf(env, w)), w)
  {
    hide Step, Steps, ListOf, Composed, AfterNested;
    AllFine(env, w, n);
  }
}
