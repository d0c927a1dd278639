/** What a finished installation guarantees. */
module InstallLaws {
  import opened Platform
  import opened PkgText
  import opened Unpack
  import opened PkgTree
  import opened Registry
  import opened InstallModel
  import opened InstallSpec
  import opened InstallRuns
  import opened InstallSafety
  import opened UninstallModel

  // ---------------------------------------------------------------------------
  // Runs and results
  // ---------------------------------------------------------------------------

  /** A run is done only where Install says so. */
  lemma DoneMeansSuccess(env: Env, w: World, n: nat)
    requires Lawful(env) && Steps(env, Running(START, w), n).Done?
    ensures Install(env, w).Success? && Steps(env, Running(START, w), n).world == Install(env, w).world
    ensures Steps(env, Running(START, w), n).task.ids == Install(env, w).ids
  {
    hide Steps, Install;
    InstallRefined(env, w);
    var start := Running(START, w);
    var m := Ending(env, w);
    StepsConcat(env, start, n, m);
    StepsConcat(env, start, m, n);
    EndedStays(env, Steps(env, start, n), m);
    EndedStays(env, Steps(env, start, m), n);
  }

  /** Where the run that refines a result ends. */
  lemma Ending(env: Env, w: World) returns (m: nat)
    requires Refines(env, w, Install(env, w))
    ensures var last := Steps(env, Running(START, w), m);
            var r := Install(env, w);
            if r.Failure? then last == Left(r.fault, r.world)
            else last.Done? && last.world == r.world && last.task.ids == r.ids
  {
    hide Steps, Install;
    match Install(env, w)
    case Failure(f, w1) =>
      m :| Steps(env, Running(START, w), m) == Left(f, w1);
    case Success(_, _, k) =>
      m := k;
  }

  lemma {:induction false} ForeignIsAfter(env: Env, i: nat, f: nat, w: World)
    requires i <= f && Foreign(env, i, f, AfterNested(env, i, w)).Through?
    ensures Foreign(env, i, f, AfterNested(env, i, w)).world == AfterNested(env, f, w)
    decreases f - i
  {
    if i < f {
      assert AfterNested(env, i + 1, w) == env.nested(i).effect(AfterNested(env, i, w));
      ForeignIsAfter(env, i + 1, f, w);
    }
  }

  /** The nested installations go on while they end without an error, and stop after the
      first that ends with one. */
  lemma {:induction false} ForeignMeans(env: Env, i: nat, k: nat, f: nat, w: World)
    requires i <= k <= f && (forall j :: i <= j < k ==> env.nested(j).status >= 0) && (k < f ==> env.nested(k).status < 0)
    ensures Foreign(env, i, f, AfterNested(env, i, w)) ==
            if k == f then Through(AfterNested(env, f, w)) else Stopped(env.nested(k).status, AfterNested(env, k + 1, w))
    decreases f - i
  {
    hide AfterNested;
    NestedStep(env, i, w);
    if i < k {
      ForeignMeans(env, i + 1, k, f, w);
    }
  }

  lemma NestedStep(env: Env, i: nat, w: World)
    ensures AfterNested(env, i + 1, w) == env.nested(i).effect(AfterNested(env, i, w))
  {
  }

  ghost function TempsOf(env: Env, w: World): Store {
    match Build(DiskStore(w.disk), env.path, env.data, PRIVATE_DIR, [], -1)
    case Fail(_) => map[]
    case Ok(b) => NewTemps(b.store, w.disk)
  }

  /** A successful installation, taken apart: the list, the device after the nested
      installations, and the installation of our own components on it. */
  lemma SuccessParts(env: Env, w: World) returns (f: nat, root: nat)
    requires Lawful(env) && Install(env, w).Success?
    ensures var list := ListOf(env, w);
            var w1 := AfterNested(env, f, w);
            && Ordered(list, f, root) && f == Heads(list)
            && InstallFrom(env, list, f, w1, TempsOf(env, w)) == Ok(Install(env, w).world)
            && Install(env, w).ids == [w1.scr.nextId + (root - f)]
            && Install(env, w).executions == 2 + 3 * f + CostFrom(env, list, f, w1, TempsOf(env, w))
  {
    hide Build, Sorts, Listing, NewTemps, DiskStore, InstallFrom, CostFrom, Foreign, IdsFrom, Heads;
    var b := Build(DiskStore(w.disk), env.path, env.data, PRIVATE_DIR, [], -1).value;
    ListShape(DiskStore(w.disk), env.path, env.data, PRIVATE_DIR);
    var list := env.sort(Listing(b.flat));
    root := SortedList(b.flat, list);
    f := Heads(list);
    assert AfterNested(env, 0, w) == w;
    ForeignIsAfter(env, 0, f, w);
    OneId(list, f, root, f, AfterNested(env, f, w).scr.nextId);
  }

  // ---------------------------------------------------------------------------
  // One component
  // ---------------------------------------------------------------------------

  function NameOfRecord(env: Env, rec: Record): string
    requires Complete(rec)
  {
    rec.names[ChosenIndex(rec.languages, env.language)]
  }

  function VendorOfRecord(env: Env, rec: Record): string
    requires Complete(rec)
  {
    rec.vendors[ChosenIndex(rec.languages, env.language)]
  }

  /** The component is one the registry offers for the package. */
  predicate Rival(env: Env, c: Component, rec: Record)
    requires Complete(rec)
  {
    Matches(c, NameOfRecord(env, rec), VendorOfRecord(env, rec))
  }

  /** No downgrade: a package is admitted only if every installed component of its
      name and vendor is strictly older, and it replaces one of them if there is one. */
  lemma NoDowngrade(env: Env, comps: Components, rec: Record)
    requires Lawful(env) && Complete(rec)
    ensures var found := Lookup(env, comps, rec);
            && (found.status <= UPGRADE <==>
                forall id :: id in comps && Rival(env, comps[id], rec) ==> CompareVersions(comps[id].version, rec.version) < 0)
            && (found.status == NEW_COMPONENT <==> forall id :: id in comps ==> !Rival(env, comps[id], rec))
            && (found.status != NEW_COMPONENT ==> found.id in comps && Rival(env, comps[found.id], rec)
                                                  && StatusAgainst(comps[found.id].version, rec.version) == found.status)
  {
    hide View, CompareVersions, Matches, Search;
    var (name, vendor) := (NameOfRecord(env, rec), VendorOfRecord(env, rec));
    var order := env.order(comps, name, vendor);
    ViewIsView(comps, order, name, vendor);
    var view := View(comps, order, name, vendor);
    SearchHighest(comps, view, rec.version);
    var found := Lookup(env, comps, rec);
    assert found == Search(comps, view, rec.version, NOTHING);
    forall id | id in comps && Rival(env, comps[id], rec)
      ensures StatusAgainst(comps[id].version, rec.version) <= found.status
    {
      assert id in view;
    }
  }

  /** The components the registry offers for the package, in its order. */
  function Rivals(env: Env, comps: Components, rec: Record): seq<int>
    requires Complete(rec)
  {
    var (name, vendor) := (NameOfRecord(env, rec), VendorOfRecord(env, rec));
    View(comps, env.order(comps, name, vendor), name, vendor)
  }

  /** The component is the first of them. */
  predicate FirstRival(env: Env, comps: Components, rec: Record, id: int)
    requires Complete(rec)
  {
    Rivals(env, comps, rec) != [] && Rivals(env, comps, rec)[0] == id
  }

  /** A package that is let through replaces the first rival, whatever the others. */
  lemma ReplacesFirst(env: Env, comps: Components, rec: Record)
    requires Complete(rec) && Lookup(env, comps, rec).status <= UPGRADE
    ensures var found := Lookup(env, comps, rec);
            && (found.status == UPGRADE <==> Rivals(env, comps, rec) != [])
            && (found.status == UPGRADE ==> FirstRival(env, comps, rec, found.id))
  {
    hide View, CompareVersions, Matches, Search;
    var view := Rivals(env, comps, rec);
    SearchHighest(comps, view, rec.version);
    forall id | id in view ensures id in comps && CompareVersions(comps[id].version, rec.version) < 0 {
      assert StatusAgainst(comps[id].version, rec.version) <= UPGRADE;
    }
    SearchFirst(comps, view, rec.version);
  }

  // ---------------------------------------------------------------------------
  // The decision, said from the package and the device
  // ---------------------------------------------------------------------------

  /** The first position of the device language, or the very first position if the
      package does not list it. */
  predicate Chosen(languages: seq<int>, language: int, k: int) {
    || (0 <= k < |languages| && languages[k] == language && language !in languages[..k])
    || (language !in languages && k == 0)
  }

  lemma ChosenIsIndex(rec: Record, language: int, k: int)
    requires Complete(rec) && Chosen(rec.languages, language, k)
    ensures ChosenIndex(rec.languages, language) == k && 0 <= k < |rec.names| == |rec.vendors|
  {
    var i := LanguageIndex(rec.languages, language);
    if language in rec.languages {
      FirstPlace(rec.languages, language, i, k);
    }
  }

  lemma FirstPlace(languages: seq<int>, language: int, i: int, k: int)
    requires -1 <= i < |languages| && if i < 0 then language !in languages else languages[i] == language && language !in languages[..i]
    requires 0 <= k < |languages| && languages[k] == language && language !in languages[..k]
    ensures i == k
  {
    assert forall a, b :: 0 <= a < b < |languages| ==> languages[a] in languages[..b];
  }

  ghost predicate SomeNewer(comps: Components, name: string, vendor: string, version: Version) {
    exists id :: id in comps && Matches(comps[id], name, vendor) && CompareVersions(comps[id].version, version) > 0
  }

  ghost predicate SomeEqual(comps: Components, name: string, vendor: string, version: Version) {
    exists id :: id in comps && Matches(comps[id], name, vendor) && CompareVersions(comps[id].version, version) == 0
  }

  ghost predicate SomeMatch(comps: Components, name: string, vendor: string) {
    exists id :: id in comps && Matches(comps[id], name, vendor)
  }

  /** What is found names a match whose comparison has this sign, and its state. */
  predicate FoundThere(comps: Components, name: string, vendor: string, version: Version, found: Found, sign: int) {
    && found.id in comps && Matches(comps[found.id], name, vendor)
    && found.activated == comps[found.id].activated
    && var cmp := CompareVersions(comps[found.id].version, version);
       if sign > 0 then cmp > 0 else if sign == 0 then cmp == 0 else cmp < 0
  }

  /** The search goes by the name and vendor in the device language, or in the first
      language if the package does not list it: a newer match decides before an equal
      one, and an equal one before older ones. */
  lemma LookupMeans(env: Env, comps: Components, rec: Record, k: int)
    requires Lawful(env) && Complete(rec) && Chosen(rec.languages, env.language, k)
    ensures 0 <= k < |rec.names| == |rec.vendors|
    ensures var (name, vendor, found) := (rec.names[k], rec.vendors[k], Lookup(env, comps, rec));
            && found == Search(comps, View(comps, env.order(comps, name, vendor), name, vendor), rec.version, NOTHING)
            && if SomeNewer(comps, name, vendor, rec.version) then
                 found.status == NEWER_INSTALLED && FoundThere(comps, name, vendor, rec.version, found, 1)
               else if SomeEqual(comps, name, vendor, rec.version) then
                 found.status == ALREADY_INSTALLED && FoundThere(comps, name, vendor, rec.version, found, 0)
               else if SomeMatch(comps, name, vendor) then
                 found.status == UPGRADE && FoundThere(comps, name, vendor, rec.version, found, -1)
               else found == Found(NEW_COMPONENT, false, 0)
  {
    hide View, CompareVersions, Matches, Search, Complete;
    ChosenIsIndex(rec, env.language, k);
    var (name, vendor) := (rec.names[k], rec.vendors[k]);
    var view := View(comps, env.order(comps, name, vendor), name, vendor);
    ViewIsView(comps, env.order(comps, name, vendor), name, vendor);
    HighestDecides(comps, view, name, vendor, rec.version, Search(comps, view, rec.version, NOTHING));
    SearchHighest(comps, view, rec.version);
  }

  lemma HighestDecides(comps: Components, view: seq<int>, name: string, vendor: string, version: Version, found: Found)
    requires IsView(comps, name, vendor, view)
    ensures Highest(comps, view, version, found) ==>
              if SomeNewer(comps, name, vendor, version) then
                found.status == NEWER_INSTALLED && FoundThere(comps, name, vendor, version, found, 1)
              else if SomeEqual(comps, name, vendor, version) then
                found.status == ALREADY_INSTALLED && FoundThere(comps, name, vendor, version, found, 0)
              else if SomeMatch(comps, name, vendor) then
                found.status == UPGRADE && FoundThere(comps, name, vendor, version, found, -1)
              else found == Found(NEW_COMPONENT, false, 0)
  {
    hide CompareVersions, Matches;
    if Highest(comps, view, version, found) {
      if view == [] {
        assert forall id :: id in comps && Matches(comps[id], name, vendor) ==> id in view;
      } else {
        assert found.id in view && Matches(comps[found.id], name, vendor);
        forall id | id in comps && Matches(comps[id], name, vendor) ensures StatusAgainst(comps[id].version, version) <= found.status {
          assert id in view;
        }
      }
    }
  }

  /** Some file of the package is in the way of itself, of an extracted file, or of a
      file on the device that does not belong to the component to be replaced. */
  ghost predicate SomeTaken(files: seq<string>, disk: map<string, int>, temps: Store, former: seq<string>) {
    exists j :: 0 <= j < |files| && IsTaken(files, j, disk, temps, former)
  }

  ghost predicate IsTaken(files: seq<string>, j: int, disk: map<string, int>, temps: Store, former: seq<string>)
    requires 0 <= j < |files|
  {
    || Fold(files[j]) in temps
    || (exists i :: 0 <= i < j && Fold(files[i]) == Fold(files[j]))
    || (Fold(files[j]) in disk && forall i :: 0 <= i < |former| ==> Fold(former[i]) != Fold(files[j]))
  }

  lemma FreshIsUntaken(files: seq<string>, disk: map<string, int>, temps: Store, former: seq<string>)
    ensures Fresh(files, (disk - KeysOf(former)).Keys + temps.Keys) <==> !SomeTaken(files, disk, temps, former)
  {
    hide Fold;
    var taken := (disk - KeysOf(former)).Keys + temps.Keys;
    if Fresh(files, taken) {
      forall j | 0 <= j < |files| ensures !IsTaken(files, j, disk, temps, former) {
        assert Fold(files[j]) !in taken;
      }
    } else {
      if i :| 0 <= i < |files| && Fold(files[i]) in taken {
        assert IsTaken(files, i, disk, temps, former);
      } else {
        var i, j :| 0 <= i < j < |files| && Fold(files[i]) == Fold(files[j]);
        assert IsTaken(files, j, disk, temps, former);
      }
    }
  }

  /** Whether a package is let through, and with which error it is refused: a newer
      version is there, the same version is there, the user says no, a name is empty,
      or a file is in the way. */
  lemma VerdictMeans(env: Env, i: int, view: World, temps: Store, rec: Record, k: int)
    requires Lawful(env) && Complete(rec) && Chosen(rec.languages, env.language, k)
    ensures 0 <= k < |rec.names| == |rec.vendors|
    ensures var (comps, name, vendor) := (view.scr.comps, rec.names[k], rec.vendors[k]);
            var verdict := Verdict(env, i, view, temps, rec);
            if SomeNewer(comps, name, vendor, rec.version) then verdict == Fail(Leave(ERR_NEWER_VERSION))
            else if SomeEqual(comps, name, vendor, rec.version) then verdict == Fail(Leave(ERR_SAME_VERSION))
            else if !env.silent && !env.confirm(i) then verdict == Fail(Leave(ERR_CANCEL))
            else if exists j :: 0 <= j < |rec.names| && rec.names[j] == "" then verdict == Fail(Leave(ERR_ARGUMENT))
            else if SomeTaken(rec.files, view.disk, temps, if SomeMatch(comps, name, vendor) then FilesOf(view.scr, Lookup(env, comps, rec).id) else [])
              then verdict == Fail(Leave(ERR_ALREADY_EXISTS))
            else verdict == Ok(())
  {
    hide View, CompareVersions, Matches, Search, Lookup, KeysOf, FilesOf, SomeTaken, Fresh, Lawful, SomeNewer, SomeEqual, SomeMatch;
    LookupMeans(env, view.scr.comps, rec, k);
    var found := Lookup(env, view.scr.comps, rec);
    var former := if found.status == UPGRADE then FilesOf(view.scr, found.id) else [];
    NoKeys(view.disk);
    FreshIsUntaken(rec.files, view.disk, temps, former);
    assert Named(Locs(rec)) <==> forall j :: 0 <= j < |rec.names| ==> rec.names[j] != "" by {
      NamedMeans(rec);
    }
  }

  lemma NoKeys(disk: map<string, int>)
    ensures disk - KeysOf([]) == disk
  {
    assert KeysOf([]) == {};
  }

  lemma NamedMeans(rec: Record)
    requires Complete(rec)
    ensures Named(Locs(rec)) <==> forall j :: 0 <= j < |rec.names| ==> rec.names[j] != ""
  {
    if Named(Locs(rec)) {
      forall j | 0 <= j < |rec.names| ensures rec.names[j] != "" {
        assert Locs(rec)[j].name == rec.names[j];
      }
    }
  }

  /** A package that is let through is registered under the next identifier with its own
      rows, version, files and their size, active unless asked otherwise; of the others
      only the first match is gone, with its files; and the package's files are there. */
  lemma InstalledMeans(env: Env, i: int, view: World, temps: Store, fileName: string, k: int)
    requires Lawful(env) && InstallOne(env, i, view, temps, fileName).Ok? && RecordAt(temps, fileName).Ok?
    requires Chosen(RecordAt(temps, fileName).value.languages, env.language, k)
    ensures var (rec, next, id) := (RecordAt(temps, fileName).value, InstallOne(env, i, view, temps, fileName).value, view.scr.nextId);
            && next.scr.nextId == id + 1 && id in next.scr.comps
            && RegisteredAs(next.scr.comps[id], rec, !env.inactive)
            && 0 <= k < |rec.names| == |rec.vendors|
            && var gone := SomeMatch(view.scr.comps, rec.names[k], rec.vendors[k]);
               var former := Lookup(env, view.scr.comps, rec).id;
               && (forall a :: a != id && a in next.scr.comps ==> a in view.scr.comps && next.scr.comps[a] == view.scr.comps[a])
               && (forall a :: a != id && a in view.scr.comps && !(gone && a == former) ==> a in next.scr.comps)
               && (gone && former != id ==> former !in next.scr.comps)
               && DiskAfter(view.disk, next.disk, if gone then FilesOf(view.scr, former) else [], rec.files)
  {
    hide View, CompareVersions, Matches, Search, Lookup, KeysOf, FilesOf, Fresh, Lawful, SomeNewer, SomeEqual, SomeMatch, Complete, RecordAt,
         ComponentOf, Locs, Named, Laid, DiskAfter, RegisteredAs;
    OneReplaces(env, i, view, temps, fileName);
    var rec := RecordAt(temps, fileName).value;
    LookupMeans(env, view.scr.comps, rec, k);
    var found := Lookup(env, view.scr.comps, rec);
    NoKeys(view.disk);
    LaidDisk(view.disk, if found.status == UPGRADE then FilesOf(view.scr, found.id) else [], rec.files);
    FieldsOf(rec, env.inactive);
  }

  /** The fields of a registered package. */
  ghost predicate RegisteredAs(c: Component, rec: Record, activated: bool) {
    && |c.locs| == |rec.languages| == |rec.names| == |rec.vendors|
    && (forall j :: 0 <= j < |c.locs| ==> c.locs[j] == Localized(rec.names[j], rec.vendors[j], rec.languages[j]))
    && c.softwareType == "reference" && c.version == rec.version && c.files == rec.files
    && c.size == 5000 * |rec.files| && c.activated == activated
  }

  lemma FieldsOf(rec: Record, inactive: bool)
    requires Complete(rec)
    ensures RegisteredAs(ComponentOf(rec, inactive), rec, !inactive)
  {
  }

  /** The new files are there with their size, the old ones are gone, the rest stays. */
  ghost predicate DiskAfter(before: map<string, int>, after: map<string, int>, former: seq<string>, files: seq<string>) {
    && (forall j :: 0 <= j < |files| ==> Fold(files[j]) in after && after[Fold(files[j])] == 5000)
    && (forall j :: 0 <= j < |former| && (forall i :: 0 <= i < |files| ==> Fold(files[i]) != Fold(former[j])) ==> Fold(former[j]) !in after)
    && (forall key :: (forall j :: 0 <= j < |files| ==> Fold(files[j]) != key) && (forall j :: 0 <= j < |former| ==> Fold(former[j]) != key) ==>
          (key in after <==> key in before) && (key in before ==> after[key] == before[key]))
  }

  lemma LaidDisk(disk: map<string, int>, former: seq<string>, files: seq<string>)
    ensures DiskAfter(disk, Laid(disk - KeysOf(former), files), former, files)
  {
    hide Fold;
  }

  /** What admitting one package does to the registry and the disk. */
  ghost predicate Replaces(env: Env, view: World, next: World, rec: Record, found: Found) {
    && Complete(rec) && found == Lookup(env, view.scr.comps, rec)
    && found.status <= UPGRADE
    && Named(Locs(rec))
    && Fresh(rec.files, Cleared(view, found).disk.Keys)
    && next == Added(Cleared(view, found), rec, env.inactive)
  }

  lemma OneReplaces(env: Env, i: int, view: World, temps: Store, fileName: string)
    requires InstallOne(env, i, view, temps, fileName).Ok?
    ensures RecordAt(temps, fileName).Ok?
    ensures var rec := RecordAt(temps, fileName).value;
            Replaces(env, view, InstallOne(env, i, view, temps, fileName).value, rec, Lookup(env, view.scr.comps, rec))
  {
    hide Lookup, Cleared, Added, Locs, Named;
    var rec := RecordAt(temps, fileName).value;
    FoundInstalled(env, view.scr.comps, rec);
  }

  // ---------------------------------------------------------------------------
  // All components
  // ---------------------------------------------------------------------------

  ghost predicate IdsBelow(scr: Scr) {
    forall id :: id in scr.comps ==> id < scr.nextId
  }

  /** The m-th package of the list is a newer version of the component. */
  ghost predicate Supersedes(env: Env, list: seq<Listed>, m: nat, temps: Store, c: Component)
    requires m < |list|
  {
    var r := RecordAt(temps, list[m].fileName);
    r.Ok? && Rival(env, c, r.value) && CompareVersions(c.version, r.value.version) < 0
  }

  /** The state in which the m-th package is taken. */
  function Reached(env: Env, list: seq<Listed>, i: nat, m: nat, view: World, temps: Store): World
    decreases m - i
  {
    if i >= m || i >= |list| then view
    else
      var one := InstallOne(env, i, view, temps, list[i].fileName);
      if one.Fail? then view else Reached(env, list, i + 1, m, one.value, temps)
  }

  /** The m-th package is a newer version of the component, and finds it as the first
      rival in the state that the packages before have reached. */
  ghost predicate Replaced(env: Env, list: seq<Listed>, i: nat, m: nat, view: World, temps: Store, id: int, c: Component)
    requires m < |list|
  {
    && Supersedes(env, list, m, temps, c)
    && FirstRival(env, Reached(env, list, i, m, view, temps).scr.comps, RecordAt(temps, list[m].fileName).value, id)
  }

  lemma OneSurvives(env: Env, view: World, next: World, rec: Record, found: Found, id: int)
    requires Lawful(env) && IdsBelow(view.scr) && id in view.scr.comps && Replaces(env, view, next, rec, found)
    ensures IdsBelow(next.scr) && next.scr.nextId == view.scr.nextId + 1
    ensures id in next.scr.comps ==> next.scr.comps[id] == view.scr.comps[id]
    ensures id !in next.scr.comps <==> FirstRival(env, view.scr.comps, rec, id)
    ensures id !in next.scr.comps ==>
              Rival(env, view.scr.comps[id], rec) && CompareVersions(view.scr.comps[id].version, rec.version) < 0
  {
    hide Lookup, Lawful, ComponentOf, Laid, KeysOf, FilesOf, Fresh, Named, Locs, CompareVersions, Rival, Complete, Rivals;
    NoDowngrade(env, view.scr.comps, rec);
    ReplacesFirst(env, view.scr.comps, rec);
  }

  lemma ReplacedLater(env: Env, list: seq<Listed>, i: nat, view: World, temps: Store, id: int, c: Component)
    requires i < |list| && InstallOne(env, i, view, temps, list[i].fileName).Ok?
    ensures var next := InstallOne(env, i, view, temps, list[i].fileName).value;
            forall m :: i < m < |list| ==> Replaced(env, list, i, m, view, temps, id, c) == Replaced(env, list, i + 1, m, next, temps, id, c)
  {
    hide InstallOne, Supersedes, FirstRival;
    var next := InstallOne(env, i, view, temps, list[i].fileName).value;
    forall m | i < m < |list|
      ensures Replaced(env, list, i, m, view, temps, id, c) == Replaced(env, list, i + 1, m, next, temps, id, c)
    {
      assert Reached(env, list, i, m, view, temps) == Reached(env, list, i + 1, m, next, temps);
    }
  }

  lemma SomeLater(env: Env, list: seq<Listed>, i: nat, k: nat, lo: nat, view: World, temps: Store, id: int, c: Component)
    requires k == i + 1 && i < |list| && i < lo && InstallOne(env, i, view, temps, list[i].fileName).Ok?
    ensures var next := InstallOne(env, i, view, temps, list[i].fileName).value;
            (exists m :: lo <= m < |list| && Replaced(env, list, i, m, view, temps, id, c)) <==>
            (exists m :: lo <= m < |list| && Replaced(env, list, k, m, next, temps, id, c))
  {
    hide InstallOne, Replaced;
    var next := InstallOne(env, i, view, temps, list[i].fileName).value;
    ReplacedLater(env, list, i, view, temps, id, c);
    if exists m :: lo <= m < |list| && Replaced(env, list, i, m, view, temps, id, c) {
      var m :| lo <= m < |list| && Replaced(env, list, i, m, view, temps, id, c);
      assert Replaced(env, list, k, m, next, temps, id, c);
    }
    if exists m :: lo <= m < |list| && Replaced(env, list, k, m, next, temps, id, c) {
      var m :| lo <= m < |list| && Replaced(env, list, k, m, next, temps, id, c);
      assert Replaced(env, list, i, m, view, temps, id, c);
    }
  }

  /** A component stays as it is exactly if no package of the list is a newer version
      of it that finds it as the first rival. */
  lemma {:induction false} Survives(env: Env, list: seq<Listed>, i: nat, view: World, temps: Store, id: int)
    requires Lawful(env) && i <= |list| && InstallFrom(env, list, i, view, temps).Ok?
    requires IdsBelow(view.scr) && id in view.scr.comps
    ensures var last := InstallFrom(env, list, i, view, temps).value;
            && (id in last.scr.comps ==> last.scr.comps[id] == view.scr.comps[id])
            && (id !in last.scr.comps <==>
                exists m :: i <= m < |list| && Replaced(env, list, i, m, view, temps, id, view.scr.comps[id]))
    decreases |list| - i
  {
    hide Lawful, InstallOne, Replaces, RecordAt, Lookup, FirstRival, Replaced;
    if i < |list| {
      var c := view.scr.comps[id];
      var next := InstallOne(env, i, view, temps, list[i].fileName).value;
      OneReplaces(env, i, view, temps, list[i].fileName);
      var rec := RecordAt(temps, list[i].fileName).value;
      OneSurvives(env, view, next, rec, Lookup(env, view.scr.comps, rec), id);
      SomeLater(env, list, i, i + 1, i + 1, view, temps, id, c);
      ReplacedNow(env, list, i, view, temps, id, c);
      if id in next.scr.comps {
        Survives(env, list, i + 1, next, temps, id);
      } else {
        NeverAgain(env, list, i + 1, next, temps, id);
      }
    }
  }

  lemma ReplacedNow(env: Env, list: seq<Listed>, i: nat, view: World, temps: Store, id: int, c: Component)
    requires i < |list| && RecordAt(temps, list[i].fileName).Ok?
    ensures var rec := RecordAt(temps, list[i].fileName).value;
            Replaced(env, list, i, i, view, temps, id, c) ==
            (Rival(env, c, rec) && CompareVersions(c.version, rec.version) < 0 && FirstRival(env, view.scr.comps, rec, id))
  {
    hide RecordAt, Rival, CompareVersions, FirstRival;
  }

  /** An identifier that was given out and is gone does not come back. */
  lemma {:induction false} NeverAgain(env: Env, list: seq<Listed>, i: nat, view: World, temps: Store, id: int)
    requires i <= |list| && InstallFrom(env, list, i, view, temps).Ok?
    requires id < view.scr.nextId && id !in view.scr.comps
    ensures id !in InstallFrom(env, list, i, view, temps).value.scr.comps
    decreases |list| - i
  {
    hide InstallOne, RecordAt, Lookup;
    if i < |list| {
      var next := InstallOne(env, i, view, temps, list[i].fileName).value;
      OneReplaces(env, i, view, temps, list[i].fileName);
      NeverAgain(env, list, i + 1, next, temps, id);
    }
  }

  /** Every reference package of the list is registered, under its own identifier,
      with exactly its names, version and files, unless, and exactly if, a later
      package of the same list replaces it. */
  lemma {:induction false} RegistersAll(env: Env, list: seq<Listed>, i: nat, view: World, temps: Store, j: nat)
    requires Lawful(env) && i <= j < |list| && InstallFrom(env, list, i, view, temps).Ok? && IdsBelow(view.scr)
    ensures RecordAt(temps, list[j].fileName).Ok?
    ensures var last := InstallFrom(env, list, i, view, temps).value;
            var id := view.scr.nextId + (j - i);
            var c := ComponentOf(RecordAt(temps, list[j].fileName).value, env.inactive);
            && (id in last.scr.comps ==> last.scr.comps[id] == c)
            && (id !in last.scr.comps <==> exists m :: j < m < |list| && Replaced(env, list, i, m, view, temps, id, c))
    decreases |list| - i
  {
    hide Lawful, InstallOne, RecordAt, Lookup, Replaces, Replaced, ComponentOf, IdsBelow;
    var next := InstallOne(env, i, view, temps, list[i].fileName).value;
    OneReplaces(env, i, view, temps, list[i].fileName);
    var rec := RecordAt(temps, list[i].fileName).value;
    OneAdds(env, view, next, rec, Lookup(env, view.scr.comps, rec));
    if i == j {
      Survives(env, list, i + 1, next, temps, view.scr.nextId);
      SomeLater(env, list, i, i + 1, j + 1, view, temps, view.scr.nextId, ComponentOf(rec, env.inactive));
    } else {
      RegistersAll(env, list, i + 1, next, temps, j);
      SomeLater(env, list, i, i + 1, j + 1, view, temps, view.scr.nextId + (j - i), ComponentOf(RecordAt(temps, list[j].fileName).value, env.inactive));
    }
  }

  lemma OneAdds(env: Env, view: World, next: World, rec: Record, found: Found)
    requires Replaces(env, view, next, rec, found)
    ensures next.scr.nextId == view.scr.nextId + 1
    ensures view.scr.nextId in next.scr.comps && next.scr.comps[view.scr.nextId] == ComponentOf(rec, env.inactive)
    ensures IdsBelow(view.scr) ==> IdsBelow(next.scr)
    ensures forall id :: id in next.scr.comps ==> id in view.scr.comps || id == view.scr.nextId
  {
    hide Lookup, ComponentOf, Laid, KeysOf, FilesOf, Fresh, Named, Locs;
  }

  /** A finished installation: the reported identifier is the root package's; each
      package is registered exactly if no later one replaces it; and what was installed
      before stays exactly if no package replaces it. */
  lemma InstallEffect(env: Env, w: World) returns (f: nat, root: nat, offset: int)
    requires Lawful(env) && Install(env, w).Success?
    requires IdsBelow(AfterNested(env, Heads(ListOf(env, w)), w).scr)
    ensures var list := ListOf(env, w);
            var temps := TempsOf(env, w);
            var after := Install(env, w).world.scr.comps;
            var before := AfterNested(env, f, w);
            && offset == before.scr.nextId - f
            && Ordered(list, f, root) && f == Heads(list)
            && Install(env, w).ids == [offset + root]
            && (forall j :: f <= j < |list| ==> RegisteredOrReplaced(env, list, f, before, temps, j, offset, after))
            && (forall id :: id in before.scr.comps ==> KeptOrReplaced(env, list, f, before, temps, id, after))
  {
    hide Lawful, Install, ListOf, TempsOf, InstallFrom, Ordered, Heads, RegisteredOrReplaced, KeptOrReplaced, AfterNested, IdsBelow;
    f, root := SuccessParts(env, w);
    offset := AfterNested(env, f, w).scr.nextId - f;
    OrderedBounds(ListOf(env, w), f, root);
    EachRegistered(env, ListOf(env, w), f, AfterNested(env, f, w), TempsOf(env, w), Install(env, w).world, offset);
    EachKept(env, ListOf(env, w), f, AfterNested(env, f, w), TempsOf(env, w), Install(env, w).world);
  }

  lemma EachRegistered(env: Env, list: seq<Listed>, f: nat, view: World, temps: Store, last: World, offset: int)
    requires Lawful(env) && f <= |list| && InstallFrom(env, list, f, view, temps) == Ok(last) && IdsBelow(view.scr)
    requires offset == view.scr.nextId - f
    ensures forall j :: f <= j < |list| ==> RegisteredOrReplaced(env, list, f, view, temps, j, offset, last.scr.comps)
  {
    hide Lawful, InstallFrom, Replaced, IdsBelow, RecordAt, ComponentOf;
    forall j | f <= j < |list| ensures RegisteredOrReplaced(env, list, f, view, temps, j, offset, last.scr.comps) {
      RegistersAll(env, list, f, view, temps, j);
    }
  }

  lemma EachKept(env: Env, list: seq<Listed>, f: nat, view: World, temps: Store, last: World)
    requires Lawful(env) && f <= |list| && InstallFrom(env, list, f, view, temps) == Ok(last) && IdsBelow(view.scr)
    ensures forall id :: id in view.scr.comps ==> KeptOrReplaced(env, list, f, view, temps, id, last.scr.comps)
  {
    hide Lawful, InstallFrom, Replaced, IdsBelow;
    forall id | id in view.scr.comps ensures KeptOrReplaced(env, list, f, view, temps, id, last.scr.comps) {
      Survives(env, list, f, view, temps, id);
    }
  }

  lemma OrderedBounds(list: seq<Listed>, f: nat, root: nat)
    requires Ordered(list, f, root)
    ensures f <= root < |list|
  {
  }

  ghost predicate RegisteredOrReplaced(env: Env, list: seq<Listed>, f: nat, before: World, temps: Store, j: nat, offset: int, after: Components)
    requires j < |list|
  {
    var id := offset + j;
    var rec := RecordAt(temps, list[j].fileName);
    && rec.Ok?
    && var c := ComponentOf(rec.value, env.inactive);
       && (id in after ==> after[id] == c)
       && (id !in after <==> exists m :: j < m < |list| && Replaced(env, list, f, m, before, temps, id, c))
  }

  ghost predicate KeptOrReplaced(env: Env, list: seq<Listed>, f: nat, before: World, temps: Store, id: int, after: Components)
    requires id in before.scr.comps
  {
    var c := before.scr.comps[id];
    && (id in after ==> after[id] == c)
    && (id !in after <==> exists m :: f <= m < |list| && Replaced(env, list, f, m, before, temps, id, c))
  }

  // ---------------------------------------------------------------------------
  // Installing and uninstalling
  // ---------------------------------------------------------------------------

  lemma LaidThenRemoved(disk: map<string, int>, files: seq<string>)
    requires forall k :: k in KeysOf(files) ==> k !in disk
    ensures Laid(disk, files) - KeysOf(files) == disk
  {
    hide KeysOf;
  }

  lemma FreshKeys(files: seq<string>, taken: set<string>)
    requires Fresh(files, taken)
    ensures KeysOf(files) !! taken
  {
    hide Fold;
  }

  /** Uninstalling, under the identifier that was reported, what was just installed
      as the only and a new component restores the disk and the registry, apart from
      the identifier counter. */
  lemma InstallThenUninstall(env: Env, w: World, req: Removing) returns (n: nat)
    requires Lawful(env) && Install(env, w).Success? && |ListOf(env, w)| == 1
    requires w.scr.nextId !in w.scr.comps && w.scr.nextId > 0
    requires var rec := RecordAt(TempsOf(env, w), ListOf(env, w)[0].fileName);
             rec.Ok? && forall id :: id in w.scr.comps ==> !Rival(env, w.scr.comps[id], rec.value)
    requires req.silent || req.confirm
    ensures |Install(env, w).ids| == 1
    ensures req.id == Install(env, w).ids[0] ==>
              var last := USteps(req, StartUninstall(req, Install(env, w).world), n);
              last.Done? && last.world == World(w.disk, Scr(w.scr.comps, w.scr.nextId + 1))
  {
    hide Lawful, Install, ListOf, TempsOf, InstallOne, RecordAt, Lookup, ComponentOf, Laid, KeysOf, USteps, StartUninstall, Fresh, Rival;
    var f, root := SuccessParts(env, w);
    var (list, temps) := (ListOf(env, w), TempsOf(env, w));
    OrderedBounds(list, f, root);
    var after := Install(env, w).world;
    assert AfterNested(env, 0, w) == w;
    assert InstallFrom(env, list, 1, after, temps) == Ok(after);
    assert InstallOne(env, 0, w, temps, list[0].fileName) == Ok(after);
    OneReplaces(env, 0, w, temps, list[0].fileName);
    var rec := RecordAt(temps, list[0].fileName).value;
    NoDowngrade(env, w.scr.comps, rec);
    AddedThenRemoved(env, w, after, rec, Lookup(env, w.scr.comps, rec));
    n := |FilesOf(after.scr, req.id)| + 3;
    UninstallRefined(req, after);
  }

  lemma AddedThenRemoved(env: Env, w: World, after: World, rec: Record, found: Found)
    requires Replaces(env, w, after, rec, found) && found.status == NEW_COMPONENT && w.scr.nextId !in w.scr.comps
    ensures w.scr.nextId in after.scr.comps
    ensures Removed(after, w.scr.nextId) == World(w.disk, Scr(w.scr.comps, w.scr.nextId + 1))
  {
    hide Lookup, Laid, KeysOf, Fresh, Locs, Named;
    FreshKeys(rec.files, w.disk.Keys);
    LaidThenRemoved(w.disk, rec.files);
    assert FilesOf(after.scr, w.scr.nextId) == rec.files;
    assert after.scr.comps - {w.scr.nextId} == w.scr.comps;
  }
}
