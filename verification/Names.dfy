/** One version at a time: when a registry that holds at most one reference
    component for each name and vendor keeps that property, and when it does not. */
module Names {
  import opened Platform
  import opened PkgText
  import opened Unpack
  import opened Registry
  import opened Orders
  import opened InstallModel
  import opened InstallSpec
  import opened InstallRuns
  import opened InstallSafety
  import opened InstallLaws
  import opened UninstallModel
  import opened History

  /** The name and vendor in a language: the first row of that language. */
  function LocalName(locs: seq<Localized>, language: int): Option<(string, string)> {
    if locs == [] then None
    else if locs[0].language == language then Some((locs[0].name, locs[0].vendor))
    else LocalName(locs[1..], language)
  }

  /** At most one reference component for each name and vendor in the language. */
  ghost predicate OnePerName(comps: Components, language: int) {
    forall a, b :: IsReference(comps, a) && IsReference(comps, b) && a != b && LocalName(comps[a].locs, language).Some? ==>
      LocalName(comps[a].locs, language) != LocalName(comps[b].locs, language)
  }

  lemma {:induction false} LocalNameAt(locs: seq<Localized>, language: int, i: nat)
    requires i < |locs| && locs[i].language == language && forall k :: 0 <= k < i ==> locs[k].language != language
    ensures LocalName(locs, language) == Some((locs[i].name, locs[i].vendor))
    decreases i
  {
    if i > 0 {
      LocalNameAt(locs[1..], language, i - 1);
    }
  }

  lemma {:induction false} LocalNameIsRow(c: Component, language: int)
    requires LocalName(c.locs, language).Some?
    ensures HasRow(c, LocalName(c.locs, language).value.0, LocalName(c.locs, language).value.1)
    decreases |c.locs|
  {
    if c.locs[0].language != language {
      var rest := c.(locs := c.locs[1..]);
      LocalNameIsRow(rest, language);
      var (name, vendor) := LocalName(c.locs, language).value;
      var i :| 0 <= i < |rest.locs| && rest.locs[i].name == name && rest.locs[i].vendor == vendor;
      assert c.locs[i + 1] == rest.locs[i];
    }
  }

  /** A package that lists the device language is looked up under its name in that
      language, and is registered under it. */
  lemma RecordName(env: Env, rec: Record)
    requires Complete(rec) && env.language in rec.languages
    ensures LocalName(ComponentOf(rec, env.inactive).locs, env.language) == Some((NameOfRecord(env, rec), VendorOfRecord(env, rec)))
  {
    var i := ChosenIndex(rec.languages, env.language);
    assert forall k :: 0 <= k < i ==> rec.languages[k] == rec.languages[..i][k];
    LocalNameAt(Locs(rec), env.language, i);
  }

  predicate BearsName(env: Env, c: Component, rec: Record)
    requires Complete(rec)
  {
    LocalName(c.locs, env.language) == Some((NameOfRecord(env, rec), VendorOfRecord(env, rec)))
  }

  /** Only the first of the components that the registry offers for the package
      bears its name. */
  ghost predicate OnlyFirstBears(env: Env, comps: Components, rec: Record)
    requires Complete(rec)
  {
    forall id :: IsReference(comps, id) && BearsName(env, comps[id], rec) ==> FirstRival(env, comps, rec, id)
  }

  ghost predicate NoneBears(env: Env, comps: Components, rec: Record)
    requires Complete(rec)
  {
    forall id :: IsReference(comps, id) ==> !BearsName(env, comps[id], rec)
  }

  /** The state after a package that is let through. */
  function Installed(env: Env, view: World, rec: Record): World
    requires Complete(rec)
  {
    Added(Cleared(view, Lookup(env, view.scr.comps, rec)), rec, env.inactive)
  }

  /** Every component that the registry could offer for the package is older: with
      that it is let through. */
  ghost predicate Newest(env: Env, comps: Components, rec: Record)
    requires Complete(rec)
  {
    forall id :: id in comps && Rival(env, comps[id], rec) ==> CompareVersions(comps[id].version, rec.version) < 0
  }

  lemma AddedComps(env: Env, view: World, rec: Record)
    requires Complete(rec) && IdsBelow(view.scr)
    ensures var found := Lookup(env, view.scr.comps, rec);
            && view.scr.nextId !in view.scr.comps
            && Installed(env, view, rec).scr.comps
               == (if found.status == UPGRADE then view.scr.comps - {found.id} else view.scr.comps)[view.scr.nextId := ComponentOf(rec, env.inactive)]
            && Installed(env, view, rec).scr.nextId == view.scr.nextId + 1
            && IsReference(Installed(env, view, rec).scr.comps, view.scr.nextId)
  {
    hide Lookup, Laid, KeysOf, FilesOf, Locs;
  }

  /** For one order of the registry: installing keeps one component per name exactly
      if only the first component that the registry offers bears the package's name. */
  lemma OnePerNameKept(env: Env, view: World, rec: Record)
    requires Complete(rec) && Lawful(env) && IdsBelow(view.scr) && env.language in rec.languages
    requires Newest(env, view.scr.comps, rec) && OnePerName(view.scr.comps, env.language)
    ensures OnePerName(Installed(env, view, rec).scr.comps, env.language) <==> OnlyFirstBears(env, view.scr.comps, rec)
  {
    hide ComponentOf, LocalName, Complete, Lawful, Rivals, Lookup, Rival, CompareVersions, Installed;
    AddedComps(env, view, rec);
    RecordName(env, rec);
    NoDowngrade(env, view.scr.comps, rec);
    ReplacesFirst(env, view.scr.comps, rec);
    var (before, after, added) := (view.scr.comps, Installed(env, view, rec).scr.comps, view.scr.nextId);
    var language := env.language;
    forall id | IsReference(before, id) && !FirstRival(env, before, rec, id)
      ensures IsReference(after, id) && after[id] == before[id] && id != added
    {
    }
    if OnlyFirstBears(env, before, rec) {
      forall a, b | IsReference(after, a) && IsReference(after, b) && a != b && LocalName(after[a].locs, language).Some?
        ensures LocalName(after[a].locs, language) != LocalName(after[b].locs, language)
      {
        OldOrAdded(env, view, rec, a);
        OldOrAdded(env, view, rec, b);
      }
    }
    if OnePerName(after, language) {
      forall id | IsReference(before, id) && BearsName(env, before[id], rec) ensures FirstRival(env, before, rec, id) {
        assert LocalName(before[id].locs, language) == LocalName(after[added].locs, language);
      }
    }
  }

  lemma OldOrAdded(env: Env, view: World, rec: Record, id: int)
    requires Complete(rec) && IdsBelow(view.scr) && Lookup(env, view.scr.comps, rec).status <= UPGRADE
    requires IsReference(Installed(env, view, rec).scr.comps, id)
    ensures var next := Installed(env, view, rec).scr.comps;
            if id == view.scr.nextId then next[id] == ComponentOf(rec, env.inactive)
            else IsReference(view.scr.comps, id) && next[id] == view.scr.comps[id] && !FirstRival(env, view.scr.comps, rec, id)
  {
    hide ComponentOf, Complete, Rivals, Lookup, Installed;
    AddedComps(env, view, rec);
    ReplacesFirst(env, view.scr.comps, rec);
  }

  /** No component has the package's name in another language only. */
  ghost predicate Aligned(env: Env, comps: Components, rec: Record)
    requires Complete(rec)
  {
    forall id :: IsReference(comps, id) && Rival(env, comps[id], rec) ==> BearsName(env, comps[id], rec)
  }

  lemma RivalsExactly(env: Env, comps: Components, rec: Record)
    requires Complete(rec) && Lawful(env)
    ensures forall id :: id in Rivals(env, comps, rec) <==> id in comps && Rival(env, comps[id], rec)
  {
    hide Matches, View, Complete;
    var (name, vendor) := (NameOfRecord(env, rec), VendorOfRecord(env, rec));
    ViewIsView(comps, env.order(comps, name, vendor), name, vendor);
  }

  lemma BearerIsRival(env: Env, comps: Components, rec: Record, id: int)
    requires Complete(rec) && IsReference(comps, id) && BearsName(env, comps[id], rec)
    ensures Rival(env, comps[id], rec)
  {
    hide Complete, HasRow;
    LocalNameIsRow(comps[id], env.language);
  }

  lemma AlignedFirst(env: Env, comps: Components, rec: Record)
    requires Complete(rec) && Lawful(env) && OnePerName(comps, env.language)
    requires NoneBears(env, comps, rec) || Aligned(env, comps, rec)
    ensures OnlyFirstBears(env, comps, rec)
  {
    hide Lawful, Complete, LocalName, Rival, Rivals;
    RivalsExactly(env, comps, rec);
    forall id | IsReference(comps, id) && BearsName(env, comps[id], rec) ensures FirstRival(env, comps, rec, id) {
      BearerIsRival(env, comps, rec, id);
      var first := Rivals(env, comps, rec)[0];
      assert first in Rivals(env, comps, rec);
      RivalIsReference(env, comps, rec, first);
      assert BearsName(env, comps[first], rec);
    }
  }

  lemma RivalIsReference(env: Env, comps: Components, rec: Record, id: int)
    requires Complete(rec) && id in comps && Rival(env, comps[id], rec)
    ensures IsReference(comps, id)
  {
    hide Complete, HasRow;
  }

  // ---------------------------------------------------------------------------
  // All orders of the registry
  // ---------------------------------------------------------------------------

  ghost function Preferring(env: Env, first: int): Env {
    env.(order := (comps: Components, _, _) => FirstOf(comps.Keys, first))
  }

  lemma PreferringLawful(env: Env, first: int)
    requires Lawful(env)
    ensures Lawful(Preferring(env, first))
  {
    hide Sorts;
  }

  lemma PreferredFirst(env: Env, comps: Components, rec: Record, first: int)
    requires Complete(rec) && first in comps && Rival(env, comps[first], rec)
    ensures FirstRival(Preferring(env, first), comps, rec, first)
  {
    hide Complete, Matches, NameOfRecord, VendorOfRecord;
    FirstInView(comps, FirstOf(comps.Keys, first), NameOfRecord(env, rec), VendorOfRecord(env, rec));
    SameLookup(env, first, rec);
    hide View;
  }

  lemma FirstInView(comps: Components, order: seq<int>, name: string, vendor: string)
    requires order != [] && order[0] in comps && Matches(comps[order[0]], name, vendor)
    ensures View(comps, order, name, vendor) != [] && View(comps, order, name, vendor)[0] == order[0]
  {
    hide Matches;
  }

  lemma SameLookup(env: Env, first: int, rec: Record)
    requires Complete(rec)
    ensures NameOfRecord(Preferring(env, first), rec) == NameOfRecord(env, rec)
    ensures VendorOfRecord(Preferring(env, first), rec) == VendorOfRecord(env, rec)
  {
  }

  /** The same request under another order of the registry. */
  ghost predicate Reordered(env: Env, other: Env) {
    Lawful(other) && other == env.(order := other.order)
  }

  /** A package that lists the device language and is newer than its rivals keeps one
      component per name whatever the order of the registry, exactly if no component
      bears the name in that language, or none bears it in another language only. */
  lemma KeptInEveryOrder(env: Env, view: World, rec: Record)
    requires Complete(rec) && Lawful(env) && IdsBelow(view.scr) && env.language in rec.languages
    requires Newest(env, view.scr.comps, rec) && OnePerName(view.scr.comps, env.language)
    ensures (forall other :: Reordered(env, other) ==> OnePerName(Installed(other, view, rec).scr.comps, env.language)) <==>
            NoneBears(env, view.scr.comps, rec) || Aligned(env, view.scr.comps, rec)
  {
    hide Lawful, Complete, OnePerName, Rivals, OnlyFirstBears, NoneBears, Aligned, Installed, Newest;
    var comps := view.scr.comps;
    if NoneBears(env, comps, rec) || Aligned(env, comps, rec) {
      forall other | Reordered(env, other) ensures OnePerName(Installed(other, view, rec).scr.comps, env.language) {
        SameNames(env, other, comps, rec);
        AlignedFirst(other, comps, rec);
        OnePerNameKept(other, view, rec);
      }
    } else {
      var stranger := Misaligned(env, comps, rec);
      var other := Preferring(env, stranger);
      PreferringLawful(env, stranger);
      PreferredFirst(env, comps, rec, stranger);
      SomeoneElse(env, comps, rec, stranger);
      SameNames(env, other, comps, rec);
      OnePerNameKept(other, view, rec);
      assert Reordered(env, other);
    }
  }

  lemma SameNames(env: Env, other: Env, comps: Components, rec: Record)
    requires Complete(rec) && other == env.(order := other.order)
    ensures NoneBears(env, comps, rec) == NoneBears(other, comps, rec)
    ensures Aligned(env, comps, rec) == Aligned(other, comps, rec)
    ensures Newest(env, comps, rec) == Newest(other, comps, rec)
  {
    hide Complete, LocalName, Matches, CompareVersions;
    assert forall id :: id in comps ==> BearsName(env, comps[id], rec) == BearsName(other, comps[id], rec);
    assert forall id :: id in comps ==> Rival(env, comps[id], rec) == Rival(other, comps[id], rec);
  }

  lemma Misaligned(env: Env, comps: Components, rec: Record) returns (id: int)
    requires Complete(rec) && !Aligned(env, comps, rec)
    ensures IsReference(comps, id) && Rival(env, comps[id], rec) && !BearsName(env, comps[id], rec)
  {
    hide Complete, LocalName, Rival;
    id :| IsReference(comps, id) && Rival(env, comps[id], rec) && !BearsName(env, comps[id], rec);
  }

  lemma SomeoneElse(env: Env, comps: Components, rec: Record, stranger: int)
    requires Complete(rec) && !NoneBears(env, comps, rec)
    requires IsReference(comps, stranger) && !BearsName(env, comps[stranger], rec)
    requires FirstRival(Preferring(env, stranger), comps, rec, stranger)
    ensures !OnlyFirstBears(Preferring(env, stranger), comps, rec)
  {
    hide Complete, LocalName, Rivals;
    var id :| IsReference(comps, id) && BearsName(env, comps[id], rec);
    assert BearsName(Preferring(env, stranger), comps[id], rec);
  }

  // ---------------------------------------------------------------------------
  // Names that are kept apart
  // ---------------------------------------------------------------------------

  /** Tables of names such that a name in the device language is not, in another
      language, the name of something else. */
  ghost predicate Separated(tables: set<seq<Localized>>, language: int) {
    && (forall a :: a in tables ==> LocalName(a, language).Some?)
    && (forall a: seq<Localized>, b, i :: a in tables && b in tables && 0 <= i < |a| && LocalName(b, language) == Some((a[i].name, a[i].vendor)) ==>
          LocalName(a, language) == LocalName(b, language))
  }

  ghost predicate Known(scr: Scr, tables: set<seq<Localized>>, language: int) {
    && OnePerName(scr.comps, language) && IdsBelow(scr)
    && forall id :: IsReference(scr.comps, id) ==> scr.comps[id].locs in tables
  }

  /** Each name that was there still is, with the same component or a newer version. */
  ghost predicate Progress(before: Components, after: Components, language: int) {
    forall a :: IsReference(before, a) ==> Continued(before, after, language, a)
  }

  ghost predicate Continued(before: Components, after: Components, language: int, a: int)
    requires IsReference(before, a)
  {
    exists b :: IsReference(after, b) && Follows(before[a], after[b], a == b, language)
  }

  predicate Follows(c: Component, d: Component, same: bool, language: int) {
    LocalName(d.locs, language) == LocalName(c.locs, language)
    && ((same && d.version == c.version) || CompareVersions(c.version, d.version) < 0)
  }

  ghost predicate KnownRecord(rec: Record, tables: set<seq<Localized>>) {
    Complete(rec) && Locs(rec) in tables
  }

  lemma RecordListsLanguage(rec: Record, tables: set<seq<Localized>>, language: int)
    requires KnownRecord(rec, tables) && Separated(tables, language)
    ensures language in rec.languages
  {
    var locs := Locs(rec);
    assert LocalName(locs, language).Some?;
    var i := RowFound(locs, language);
    assert rec.languages[i] == language;
  }

  lemma {:induction false} RowFound(locs: seq<Localized>, language: int) returns (i: nat)
    requires LocalName(locs, language).Some?
    ensures i < |locs| && locs[i].language == language
    decreases |locs|
  {
    if locs[0].language == language {
      i := 0;
    } else {
      var k := RowFound(locs[1..], language);
      i := k + 1;
    }
  }

  lemma SeparatedAligns(env: Env, comps: Components, rec: Record, tables: set<seq<Localized>>)
    requires KnownRecord(rec, tables) && Separated(tables, env.language)
    requires forall id :: IsReference(comps, id) ==> comps[id].locs in tables
    ensures Aligned(env, comps, rec)
  {
    hide Complete, LocalName, ComponentOf;
    RecordListsLanguage(rec, tables, env.language);
    RecordName(env, rec);
    RecordLocs(rec, env.inactive);
    var (name, vendor) := (NameOfRecord(env, rec), VendorOfRecord(env, rec));
    forall id | IsReference(comps, id) && Rival(env, comps[id], rec) ensures BearsName(env, comps[id], rec) {
      var locs := comps[id].locs;
      var i :| 0 <= i < |locs| && locs[i].name == name && locs[i].vendor == vendor;
      assert LocalName(Locs(rec), env.language) == Some((locs[i].name, locs[i].vendor));
    }
  }

  lemma RecordLocs(rec: Record, inactive: bool)
    requires Complete(rec)
    ensures ComponentOf(rec, inactive).locs == Locs(rec) && ComponentOf(rec, inactive).version == rec.version
  {
  }

  /** One installation: the names stay apart, and each component stays or gives way to a
      version that the comparison takes for newer. */
  lemma OneKnown(env: Env, view: World, next: World, rec: Record, tables: set<seq<Localized>>)
    requires Lawful(env) && Complete(rec) && Replaces(env, view, next, rec, Lookup(env, view.scr.comps, rec))
    requires Known(view.scr, tables, env.language) && KnownRecord(rec, tables) && Separated(tables, env.language)
    ensures Known(next.scr, tables, env.language) && Progress(view.scr.comps, next.scr.comps, env.language)
    ensures forall id :: IsReference(view.scr.comps, id) && Rival(env, view.scr.comps[id], rec) ==> id !in next.scr.comps
  {
    hide Lawful, Lookup, Complete, Replaces, ComponentOf, LocalName, Separated, CompareVersions, Aligned, OnlyFirstBears, OnePerName,
         Installed, Newest, Rivals, Rival, FirstRival;
    var comps := view.scr.comps;
    RecordListsLanguage(rec, tables, env.language);
    RecordName(env, rec);
    RecordLocs(rec, env.inactive);
    SeparatedAligns(env, comps, rec, tables);
    IsInstalled(env, view, next, rec);
    AlignedFirst(env, comps, rec);
    OnePerNameKept(env, view, rec);
    AddedComps(env, view, rec);
    ReplacesFirst(env, comps, rec);
    forall id | IsReference(next.scr.comps, id)
      ensures id != view.scr.nextId ==> IsReference(comps, id) && next.scr.comps[id] == comps[id]
    {
    }
    forall a | IsReference(comps, a)
      ensures Continued(comps, next.scr.comps, env.language, a)
      ensures Rival(env, comps[a], rec) ==> a !in next.scr.comps
    {
      RivalGoes(env, view, next, rec, a);
      if a in next.scr.comps {
        assert IsReference(next.scr.comps, a) && Follows(comps[a], next.scr.comps[a], true, env.language);
      } else {
        var (was, now) := (comps[a], next.scr.comps[view.scr.nextId]);
        assert Follows(was, now, false, env.language);
      }
    }
  }

  lemma IsInstalled(env: Env, view: World, next: World, rec: Record)
    requires Complete(rec) && Lawful(env) && Replaces(env, view, next, rec, Lookup(env, view.scr.comps, rec))
    ensures next == Installed(env, view, rec) && Newest(env, view.scr.comps, rec)
    ensures Lookup(env, view.scr.comps, rec).status <= UPGRADE
  {
    hide Lawful, Lookup, Complete, Added, Cleared, CompareVersions, Rival;
    NoDowngrade(env, view.scr.comps, rec);
  }

  /** A component of the package's name is the one that goes, and it is older; any
      other stays. */
  lemma RivalGoes(env: Env, view: World, next: World, rec: Record, a: int)
    requires Complete(rec) && Lawful(env) && IdsBelow(view.scr) && IsReference(view.scr.comps, a)
    requires next == Installed(env, view, rec) && Lookup(env, view.scr.comps, rec).status <= UPGRADE
    requires Newest(env, view.scr.comps, rec) && Aligned(env, view.scr.comps, rec) && OnlyFirstBears(env, view.scr.comps, rec)
    ensures Rival(env, view.scr.comps[a], rec) <==> a !in next.scr.comps
    ensures a in next.scr.comps ==> next.scr.comps[a] == view.scr.comps[a]
    ensures a !in next.scr.comps ==>
              BearsName(env, view.scr.comps[a], rec) && CompareVersions(view.scr.comps[a].version, rec.version) < 0
  {
    hide Lawful, Lookup, Complete, Installed, ComponentOf, LocalName, CompareVersions, Rival, Rivals;
    var comps := view.scr.comps;
    AddedComps(env, view, rec);
    ReplacesFirst(env, comps, rec);
    RivalsExactly(env, comps, rec);
    if Rival(env, comps[a], rec) {
      assert a in Rivals(env, comps, rec);
    }
    if FirstRival(env, comps, rec, a) {
      var first := Rivals(env, comps, rec)[0];
      assert first in Rivals(env, comps, rec);
    }
  }

  // ---------------------------------------------------------------------------
  // All packages of a list
  // ---------------------------------------------------------------------------

  /** The packages of the list that can be read are known ones. */
  ghost predicate KnownPackages(list: seq<Listed>, temps: Store, tables: set<seq<Localized>>) {
    forall j :: 0 <= j < |list| && RecordAt(temps, list[j].fileName).Ok? ==> KnownRecord(RecordAt(temps, list[j].fileName).value, tables)
  }

  lemma {:induction false} AllKnown(env: Env, list: seq<Listed>, i: nat, view: World, temps: Store, tables: set<seq<Localized>>)
    requires Lawful(env) && i <= |list| && InstallFrom(env, list, i, view, temps).Ok?
    requires Known(view.scr, tables, env.language) && KnownPackages(list, temps, tables) && Separated(tables, env.language)
    ensures Known(InstallFrom(env, list, i, view, temps).value.scr, tables, env.language)
    decreases |list| - i
  {
    hide Lawful, InstallOne, Known, Progress, Separated, Replaces, RecordAt, Lookup, KnownRecord, Rival;
    if i < |list| {
      var next := InstallOne(env, i, view, temps, list[i].fileName).value;
      OneReplaces(env, i, view, temps, list[i].fileName);
      OneKnown(env, view, next, RecordAt(temps, list[i].fileName).value, tables);
      AllKnown(env, list, i + 1, next, temps, tables);
    }
  }

  /** On names that are kept apart, a newer version of a component always removes it. */
  lemma {:induction false} GoneIfSuperseded(env: Env, list: seq<Listed>, i: nat, view: World, temps: Store, tables: set<seq<Localized>>, id: int, m: nat)
    requires Lawful(env) && i <= m < |list| && InstallFrom(env, list, i, view, temps).Ok?
    requires Known(view.scr, tables, env.language) && KnownPackages(list, temps, tables) && Separated(tables, env.language)
    requires IsReference(view.scr.comps, id) && Supersedes(env, list, m, temps, view.scr.comps[id])
    ensures id !in InstallFrom(env, list, i, view, temps).value.scr.comps
    decreases |list| - i
  {
    hide Lawful, InstallOne, Progress, Separated, Replaces, RecordAt, Lookup, KnownRecord, Rival, FirstRival, CompareVersions, OnePerName;
    var next := InstallOne(env, i, view, temps, list[i].fileName).value;
    OneReplaces(env, i, view, temps, list[i].fileName);
    var rec := RecordAt(temps, list[i].fileName).value;
    OneKnown(env, view, next, rec, tables);
    OneSurvives(env, view, next, rec, Lookup(env, view.scr.comps, rec), id);
    if id in next.scr.comps {
      GoneIfSuperseded(env, list, i + 1, next, temps, tables, id, m);
    } else {
      NeverAgain(env, list, i + 1, next, temps, id);
    }
  }

  /** The j-th package is registered at the end, as what its record says, exactly if
      no later package of the list is a newer version of it. */
  lemma {:induction false} RegisteredExactly(env: Env, list: seq<Listed>, i: nat, view: World, temps: Store, tables: set<seq<Localized>>, j: nat)
    requires Lawful(env) && i <= j < |list| && InstallFrom(env, list, i, view, temps).Ok?
    requires Known(view.scr, tables, env.language) && KnownPackages(list, temps, tables) && Separated(tables, env.language)
    ensures RecordAt(temps, list[j].fileName).Ok?
    ensures var last := InstallFrom(env, list, i, view, temps).value.scr.comps;
            var id := view.scr.nextId + (j - i);
            var c := ComponentOf(RecordAt(temps, list[j].fileName).value, env.inactive);
            (id in last && last[id] == c) <==> !exists m :: j < m < |list| && Supersedes(env, list, m, temps, c)
    decreases |list| - i
  {
    hide Lawful, InstallOne, Progress, Separated, Replaces, RecordAt, Lookup, KnownRecord, Rival, FirstRival,
         CompareVersions, OnePerName, ComponentOf, Supersedes;
    RegistersAll(env, list, i, view, temps, j);
    var id := view.scr.nextId + (j - i);
    var c := ComponentOf(RecordAt(temps, list[j].fileName).value, env.inactive);
    if exists m :: j < m < |list| && Supersedes(env, list, m, temps, c) {
      var m :| j < m < |list| && Supersedes(env, list, m, temps, c);
      GoneFromList(env, list, i, view, temps, tables, j, m);
    }
  }

  lemma {:induction false} GoneFromList(env: Env, list: seq<Listed>, i: nat, view: World, temps: Store, tables: set<seq<Localized>>, j: nat, m: nat)
    requires Lawful(env) && i <= j < m < |list| && InstallFrom(env, list, i, view, temps).Ok?
    requires Known(view.scr, tables, env.language) && KnownPackages(list, temps, tables) && Separated(tables, env.language)
    requires RecordAt(temps, list[j].fileName).Ok?
    requires Supersedes(env, list, m, temps, ComponentOf(RecordAt(temps, list[j].fileName).value, env.inactive))
    ensures view.scr.nextId + (j - i) !in InstallFrom(env, list, i, view, temps).value.scr.comps
    decreases |list| - i
  {
    hide Lawful, InstallOne, Progress, Separated, Replaces, RecordAt, Lookup, KnownRecord, Rival, CompareVersions,
         OnePerName, Supersedes, ComponentOf;
    var next := InstallOne(env, i, view, temps, list[i].fileName).value;
    OneReplaces(env, i, view, temps, list[i].fileName);
    var rec := RecordAt(temps, list[i].fileName).value;
    OneKnown(env, view, next, rec, tables);
    OneAdds(env, view, next, rec, Lookup(env, view.scr.comps, rec));
    if i == j {
      TypeOfComponent(rec, env.inactive);
      GoneIfSuperseded(env, list, i + 1, next, temps, tables, view.scr.nextId, m);
    } else {
      GoneFromList(env, list, i + 1, next, temps, tables, j, m);
    }
  }

  lemma TypeOfComponent(rec: Record, inactive: bool)
    requires Complete(rec)
    ensures ComponentOf(rec, inactive).softwareType == SOFTWARE_TYPE
  {
  }

  // ---------------------------------------------------------------------------
  // Histories
  // ---------------------------------------------------------------------------

  /** The other installers keep to the known names. */
  ghost predicate Discreet(env: Env, tables: set<seq<Localized>>) {
    forall i, w: World :: Known(w.scr, tables, env.language) ==> Known(env.nested(i).effect(w).scr, tables, env.language)
  }

  lemma DiscreetAt(env: Env, i: int, w: World, tables: set<seq<Localized>>)
    requires Discreet(env, tables) && Known(w.scr, tables, env.language)
    ensures Known(env.nested(i).effect(w).scr, tables, env.language)
  {
    hide Known;
    var next := env.nested(i).effect(w);
  }

  lemma {:induction false} NestedKnown(env: Env, k: nat, w: World, tables: set<seq<Localized>>)
    requires Discreet(env, tables) && Known(w.scr, tables, env.language)
    ensures Known(AfterNested(env, k, w).scr, tables, env.language)
  {
    hide Known, Discreet;
    if k > 0 {
      NestedKnown(env, k - 1, w, tables);
      DiscreetAt(env, k - 1, AfterNested(env, k - 1, w), tables);
    }
  }

  /** A request with the fixed device language, on packages whose names are known. */
  ghost predicate Orderly(r: Request, w: World, tables: set<seq<Localized>>, language: int) {
    r.Installing? ==>
      && Lawful(r.env) && r.env.language == language && Discreet(r.env, tables)
      && KnownPackages(ListOf(r.env, w), TempsOf(r.env, w), tables)
  }

  ghost predicate AllOrderly(requests: seq<Request>, w: World, tables: set<seq<Localized>>, language: int)
    decreases |requests|
  {
    requests != [] ==>
      Orderly(requests[0], w, tables, language) && AllOrderly(requests[1..], After(requests[0], w), tables, language)
  }

  lemma InstallKnown(env: Env, w: World, n: nat, tables: set<seq<Localized>>)
    requires Lawful(env) && Discreet(env, tables) && KnownPackages(ListOf(env, w), TempsOf(env, w), tables)
    requires Known(w.scr, tables, env.language) && Separated(tables, env.language)
    ensures Known(Steps(env, Running(START, w), n).world.scr, tables, env.language)
  {
    hide Lawful, Discreet, Known, Steps, Install, ListOf, TempsOf, InstallFrom, Ordered, KnownPackages, Separated;
    var c := Steps(env, Running(START, w), n);
    if c.Done? {
      DoneMeansSuccess(env, w, n);
      var f, root := SuccessParts(env, w);
      OrderedBounds(ListOf(env, w), f, root);
      NestedKnown(env, f, w, tables);
      AllKnown(env, ListOf(env, w), f, AfterNested(env, f, w), TempsOf(env, w), tables);
    } else {
      var k := Unfinished(env, w, n);
      NestedKnown(env, k, w, tables);
    }
  }

  lemma RemovedKnown(w: World, id: int, tables: set<seq<Localized>>, language: int)
    requires Known(w.scr, tables, language)
    ensures Known(Removed(w, id).scr, tables, language)
    ensures forall a :: IsReference(w.scr.comps, a) && a != id ==> Continued(w.scr.comps, Removed(w, id).scr.comps, language, a)
  {
    hide LocalName, KeysOf, CompareVersions;
    var next := Removed(w, id).scr.comps;
    assert forall a :: IsReference(next, a) ==> IsReference(w.scr.comps, a) && next[a] == w.scr.comps[a];
    forall a | IsReference(w.scr.comps, a) && a != id ensures Continued(w.scr.comps, next, language, a) {
      assert IsReference(next, a) && Follows(w.scr.comps[a], next[a], true, language);
    }
  }

  lemma SettingKnown(w: World, id: int, activated: bool, tables: set<seq<Localized>>, language: int)
    requires Known(w.scr, tables, language) && SetState(w, id, activated).Ok?
    ensures var next := SetState(w, id, activated).value.scr;
            Known(next, tables, language) && Progress(w.scr.comps, next.comps, language)
  {
    hide LocalName, CompareVersions;
    var next := SetState(w, id, activated).value.scr.comps;
    assert forall a :: IsReference(next, a) <==> IsReference(w.scr.comps, a);
    assert forall a :: IsReference(next, a) ==> next[a].locs == w.scr.comps[a].locs && next[a].version == w.scr.comps[a].version;
    forall a | IsReference(w.scr.comps, a) ensures Continued(w.scr.comps, next, language, a) {
      assert Follows(w.scr.comps[a], next[a], true, language);
    }
  }

  lemma OneOrderly(r: Request, w: World, tables: set<seq<Localized>>, language: int)
    requires Orderly(r, w, tables, language) && Known(w.scr, tables, language) && Separated(tables, language)
    ensures Known(After(r, w).scr, tables, language)
  {
    hide Lawful, Discreet, Known, Steps, USteps, SetState, Removed, ListOf, TempsOf, KnownPackages, Separated;
    match r
    case Installing(env, n) => InstallKnown(env, w, n, tables);
    case Uninstalling(req, n) =>
      UninstallAllOrNothing(req, w, n);
      RemovedKnown(w, req.id, tables, language);
    case Setting(id, activated) =>
      if SetState(w, id, activated).Ok? {
        SettingKnown(w, id, activated, tables, language);
      }
  }

  /** Over every history with a fixed device language, on packages whose names are
      kept apart, the registry holds at most one reference component for each name
      and vendor. */
  lemma {:induction false} OneVersionForever(requests: seq<Request>, w: World, tables: set<seq<Localized>>, language: int)
    requires AllOrderly(requests, w, tables, language) && Known(w.scr, tables, language) && Separated(tables, language)
    ensures Known(AfterAll(requests, w).scr, tables, language)
    decreases |requests|
  {
    hide Known, Orderly, After, Separated;
    if requests != [] {
      OneOrderly(requests[0], w, tables, language);
      OneVersionForever(requests[1..], After(requests[0], w), tables, language);
    }
  }
}
