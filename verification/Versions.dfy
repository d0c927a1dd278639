/** Versions over histories: through which versions the component of a name goes, and
    exactly when they rise. */
module Versions {
  import opened Platform
  import opened PkgText
  import opened Unpack
  import opened Registry
  import opened InstallModel
  import opened InstallSpec
  import opened InstallRuns
  import opened InstallSafety
  import opened InstallLaws
  import opened UninstallModel
  import opened History
  import opened Names

  // ---------------------------------------------------------------------------
  // Climbing
  // ---------------------------------------------------------------------------

  /** Versions in use, each newer to the comparison than the one before. */
  ghost predicate Climb(steps: seq<Version>, versions: iset<Version>)
    decreases |steps|
  {
    && steps != [] && steps[0] in versions
    && (|steps| > 1 ==> CompareVersions(steps[0], steps[1]) < 0 && Climb(steps[1..], versions))
  }

  ghost predicate Leads(steps: seq<Version>, u: Version, v: Version, versions: iset<Version>) {
    |steps| > 1 && Climb(steps, versions) && steps[0] == u && steps[|steps| - 1] == v
  }

  /** In at least one step. */
  ghost predicate Climbs(u: Version, v: Version, versions: iset<Version>) {
    exists steps :: Leads(steps, u, v, versions)
  }

  lemma OneStep(u: Version, v: Version, versions: iset<Version>)
    requires u in versions && v in versions && CompareVersions(u, v) < 0
    ensures Climbs(u, v, versions)
  {
    hide CompareVersions;
    assert [u, v][1..] == [v];
    assert Climb([v], versions);
    assert Leads([u, v], u, v, versions);
  }

  lemma {:induction false} Joined(s: seq<Version>, t: seq<Version>, versions: iset<Version>)
    requires Climb(s, versions) && Climb(t, versions) && s[|s| - 1] == t[0]
    ensures Climb(s + t[1..], versions)
    decreases |s|
  {
    hide CompareVersions;
    if |s| == 1 {
      assert s + t[1..] == t;
    } else {
      Joined(s[1..], t, versions);
      assert (s + t[1..])[1..] == s[1..] + t[1..];
    }
  }

  lemma ClimbsOn(u: Version, v: Version, w: Version, versions: iset<Version>)
    requires Climbs(u, v, versions) && Climbs(v, w, versions)
    ensures Climbs(u, w, versions)
  {
    hide Climb;
    var s :| Leads(s, u, v, versions);
    var t :| Leads(t, v, w, versions);
    Joined(s, t, versions);
    assert Leads(s + t[1..], u, w, versions);
  }

  /** The comparison does not lose what it gains on the way. */
  ghost predicate Transitive(versions: iset<Version>) {
    forall u, v, w :: u in versions && v in versions && w in versions && CompareVersions(u, v) < 0 && CompareVersions(v, w) < 0 ==>
      CompareVersions(u, w) < 0
  }

  lemma {:induction false} LastInUse(steps: seq<Version>, versions: iset<Version>)
    requires Climb(steps, versions)
    ensures steps[|steps| - 1] in versions
    decreases |steps|
  {
    hide CompareVersions;
    if |steps| > 1 {
      LastInUse(steps[1..], versions);
    }
  }

  lemma {:induction false} ClimbRises(steps: seq<Version>, versions: iset<Version>)
    requires Climb(steps, versions) && |steps| > 1 && Transitive(versions)
    ensures CompareVersions(steps[0], steps[|steps| - 1]) < 0
    decreases |steps|
  {
    hide CompareVersions;
    if |steps| > 2 {
      ClimbRises(steps[1..], versions);
      LastInUse(steps, versions);
      assert steps[1] == steps[1..][0] && steps[1..][0] in versions;
    }
  }

  /** With major numbers other than -1 the comparison is transitive. */
  lemma RankedTransitive(versions: iset<Version>)
    requires forall v :: v in versions ==> Ranked(v)
    ensures Transitive(versions)
  {
    hide CompareVersions;
    forall u, v, w | u in versions && v in versions && w in versions && CompareVersions(u, v) < 0 && CompareVersions(v, w) < 0
      ensures CompareVersions(u, w) < 0
    {
      CompareIsLexicographic(u, v);
      CompareIsLexicographic(v, w);
      CompareIsLexicographic(u, w);
    }
  }

  /** Between any two ranked versions that a package can have, a version leads upwards
      only. */
  ghost predicate LeadsUp(v: Version) {
    forall u, w :: Ranked(u) && Ranked(w) && !u.IsZero() && !w.IsZero() && CompareVersions(u, v) < 0 && CompareVersions(v, w) < 0 ==>
      CompareVersions(u, w) < 0
  }

  /** Exactly a version with a major number of -1 leads downwards: from -2.0 through it
      to -3.50, which is the older one. */
  lemma LeadsUpExactly(v: Version)
    ensures Ranked(v) <==> LeadsUp(v)
  {
    hide CompareVersions;
    if Ranked(v) {
      forall u, w | Ranked(u) && Ranked(w) && CompareVersions(u, v) < 0 && CompareVersions(v, w) < 0 ensures CompareVersions(u, w) < 0 {
        CompareIsLexicographic(u, v);
        CompareIsLexicographic(v, w);
        CompareIsLexicographic(u, w);
      }
    } else {
      Downwards(v);
    }
  }

  const HIGH := Version(-2, 0, 0)
  const LOW := Version(-3, 50, 0)

  lemma Downwards(v: Version)
    requires !Ranked(v)
    ensures CompareVersions(HIGH, v) < 0 && CompareVersions(v, LOW) < 0 && CompareVersions(LOW, HIGH) < 0
    ensures CompareVersions(HIGH, LOW) > 0
  {
    CompareIsLexicographic(LOW, HIGH);
    assert [-3, 50][1..] == [50] && [50][1..] == [];
    assert [-2, 0][1..] == [0] && [0][1..] == [];
    assert SumOfRest([v.major, v.minor]) == 0;
    assert SumOfRest([-3, 50]) == 47 && SumOfRest([-2, 0]) == -2;
  }

  // ---------------------------------------------------------------------------
  // What becomes of a component
  // ---------------------------------------------------------------------------

  ghost predicate AllIn(comps: Components, versions: iset<Version>) {
    forall id :: IsReference(comps, id) ==> comps[id].version in versions
  }

  ghost predicate Succeeds(c: Component, d: Component, same: bool, language: int, versions: iset<Version>) {
    LocalName(d.locs, language) == LocalName(c.locs, language)
    && ((same && d.version == c.version) || Climbs(c.version, d.version, versions))
  }

  /** The name still has this component, or one to which updates have led. */
  ghost predicate Climbed(before: Components, after: Components, language: int, versions: iset<Version>, a: int)
    requires IsReference(before, a)
  {
    exists b :: IsReference(after, b) && Succeeds(before[a], after[b], a == b, language, versions)
  }

  ghost predicate Advance(before: Components, after: Components, language: int, versions: iset<Version>) {
    forall a :: IsReference(before, a) ==> Climbed(before, after, language, versions, a)
  }

  lemma ContinuedClimbs(before: Components, after: Components, language: int, versions: iset<Version>, a: int)
    requires IsReference(before, a) && Continued(before, after, language, a) && AllIn(before, versions) && AllIn(after, versions)
    ensures Climbed(before, after, language, versions, a)
  {
    hide CompareVersions, LocalName, Climbs;
    var b :| IsReference(after, b) && Follows(before[a], after[b], a == b, language);
    if CompareVersions(before[a].version, after[b].version) < 0 {
      OneStep(before[a].version, after[b].version, versions);
    }
    assert Succeeds(before[a], after[b], a == b, language, versions);
  }

  lemma ProgressAdvances(before: Components, after: Components, language: int, versions: iset<Version>)
    requires Progress(before, after, language) && AllIn(before, versions) && AllIn(after, versions)
    ensures Advance(before, after, language, versions)
  {
    hide Continued, Climbed, AllIn;
    forall a | IsReference(before, a) ensures Climbed(before, after, language, versions, a) {
      ContinuedClimbs(before, after, language, versions, a);
    }
  }

  lemma Successor(a: Components, b: Components, language: int, versions: iset<Version>, i: int) returns (j: int)
    requires IsReference(a, i) && Climbed(a, b, language, versions, i)
    ensures IsReference(b, j) && Succeeds(a[i], b[j], i == j, language, versions)
  {
    hide Succeeds;
    j :| IsReference(b, j) && Succeeds(a[i], b[j], i == j, language, versions);
  }

  lemma ClimbedOn(a: Components, b: Components, c: Components, language: int, versions: iset<Version>, i: int, j: int)
    requires IsReference(a, i) && IsReference(b, j) && Succeeds(a[i], b[j], i == j, language, versions)
    requires Climbed(b, c, language, versions, j)
    ensures Climbed(a, c, language, versions, i)
  {
    hide Climbs, LocalName;
    var k := Successor(b, c, language, versions, j);
    var (u, v, w) := (a[i].version, b[j].version, c[k].version);
    if Climbs(u, v, versions) && Climbs(v, w, versions) {
      ClimbsOn(u, v, w, versions);
    }
    assert Succeeds(a[i], c[k], i == k, language, versions);
  }

  lemma AdvanceChain(a: Components, b: Components, c: Components, language: int, versions: iset<Version>)
    requires Advance(a, b, language, versions) && Advance(b, c, language, versions)
    ensures Advance(a, c, language, versions)
  {
    hide Succeeds, Climbed;
    forall i | IsReference(a, i) ensures Climbed(a, c, language, versions, i) {
      var j := Successor(a, b, language, versions, i);
      ClimbedOn(a, b, c, language, versions, i, j);
    }
  }

  lemma AdvanceSame(comps: Components, language: int, versions: iset<Version>)
    ensures Advance(comps, comps, language, versions)
  {
    hide Climbs, LocalName;
    forall a | IsReference(comps, a) ensures Climbed(comps, comps, language, versions, a) {
      assert Succeeds(comps[a], comps[a], true, language, versions);
    }
  }

  lemma ClimbedRises(before: Components, after: Components, language: int, versions: iset<Version>, a: int)
    requires IsReference(before, a) && Climbed(before, after, language, versions, a) && Transitive(versions)
    ensures Continued(before, after, language, a)
  {
    hide CompareVersions, LocalName, Climb;
    var b := Successor(before, after, language, versions, a);
    var (u, v) := (before[a].version, after[b].version);
    if Climbs(u, v, versions) {
      var steps :| Leads(steps, u, v, versions);
      ClimbRises(steps, versions);
    }
    assert Follows(before[a], after[b], a == b, language);
  }

  // ---------------------------------------------------------------------------
  // Installing
  // ---------------------------------------------------------------------------

  ghost predicate PackagesIn(list: seq<Listed>, temps: Store, versions: iset<Version>) {
    forall j :: 0 <= j < |list| && RecordAt(temps, list[j].fileName).Ok? ==> RecordAt(temps, list[j].fileName).value.version in versions
  }

  lemma OneIn(env: Env, view: World, next: World, rec: Record, versions: iset<Version>)
    requires Complete(rec) && Replaces(env, view, next, rec, Lookup(env, view.scr.comps, rec))
    requires AllIn(view.scr.comps, versions) && rec.version in versions
    ensures AllIn(next.scr.comps, versions)
  {
    hide Lookup, Complete, ComponentOf, Laid, KeysOf, FilesOf, Fresh, Named, Locs;
    RecordLocs(rec, env.inactive);
    forall id | IsReference(next.scr.comps, id) ensures next.scr.comps[id].version in versions {
      assert id != view.scr.nextId ==> IsReference(view.scr.comps, id);
    }
  }

  lemma {:induction false} AllAdvance(env: Env, list: seq<Listed>, i: nat, view: World, temps: Store, tables: set<seq<Localized>>, versions: iset<Version>)
    requires Lawful(env) && i <= |list| && InstallFrom(env, list, i, view, temps).Ok?
    requires Known(view.scr, tables, env.language) && KnownPackages(list, temps, tables) && Separated(tables, env.language)
    requires AllIn(view.scr.comps, versions) && PackagesIn(list, temps, versions)
    ensures var last := InstallFrom(env, list, i, view, temps).value.scr.comps;
            AllIn(last, versions) && Advance(view.scr.comps, last, env.language, versions)
    decreases |list| - i
  {
    hide Lawful, InstallOne, Known, Progress, Advance, Separated, Replaces, RecordAt, Lookup, KnownRecord, AllIn, Rival;
    if i == |list| {
      AdvanceSame(view.scr.comps, env.language, versions);
    } else {
      var next := InstallOne(env, i, view, temps, list[i].fileName).value;
      OneReplaces(env, i, view, temps, list[i].fileName);
      var rec := RecordAt(temps, list[i].fileName).value;
      OneKnown(env, view, next, rec, tables);
      OneIn(env, view, next, rec, versions);
      ProgressAdvances(view.scr.comps, next.scr.comps, env.language, versions);
      AllAdvance(env, list, i + 1, next, temps, tables, versions);
      AdvanceChain(view.scr.comps, next.scr.comps, InstallFrom(env, list, i + 1, next, temps).value.scr.comps, env.language, versions);
    }
  }

  /** The other installers leave the reference components, or update them with versions
      in use. */
  ghost predicate Steady(env: Env, tables: set<seq<Localized>>, versions: iset<Version>) {
    forall i, w: World :: Known(w.scr, tables, env.language) && AllIn(w.scr.comps, versions) ==>
      AllIn(env.nested(i).effect(w).scr.comps, versions) && Advance(w.scr.comps, env.nested(i).effect(w).scr.comps, env.language, versions)
  }

  lemma SteadyAt(env: Env, i: int, w: World, tables: set<seq<Localized>>, versions: iset<Version>)
    requires Steady(env, tables, versions) && Known(w.scr, tables, env.language) && AllIn(w.scr.comps, versions)
    ensures var next := env.nested(i).effect(w).scr.comps;
            AllIn(next, versions) && Advance(w.scr.comps, next, env.language, versions)
  {
    hide Known, Advance, AllIn;
    var next := env.nested(i).effect(w);
  }

  lemma {:induction false} NestedAdvance(env: Env, k: nat, w: World, tables: set<seq<Localized>>, versions: iset<Version>)
    requires Discreet(env, tables) && Steady(env, tables, versions) && Known(w.scr, tables, env.language) && AllIn(w.scr.comps, versions)
    ensures var now := AfterNested(env, k, w).scr.comps;
            AllIn(now, versions) && Advance(w.scr.comps, now, env.language, versions)
  {
    hide Known, Discreet, Steady, Advance, AllIn;
    if k == 0 {
      AdvanceSame(w.scr.comps, env.language, versions);
    } else {
      var before := AfterNested(env, k - 1, w);
      NestedKnown(env, k - 1, w, tables);
      NestedAdvance(env, k - 1, w, tables, versions);
      SteadyAt(env, k - 1, before, tables, versions);
      AdvanceChain(w.scr.comps, before.scr.comps, env.nested(k - 1).effect(before).scr.comps, env.language, versions);
    }
  }

  // ---------------------------------------------------------------------------
  // Histories
  // ---------------------------------------------------------------------------

  /** An orderly request whose packages have versions in use. */
  ghost predicate Versioned(r: Request, w: World, tables: set<seq<Localized>>, versions: iset<Version>, language: int) {
    && Orderly(r, w, tables, language)
    && (r.Installing? ==> Steady(r.env, tables, versions) && PackagesIn(ListOf(r.env, w), TempsOf(r.env, w), versions))
  }

  ghost predicate AllVersioned(requests: seq<Request>, w: World, tables: set<seq<Localized>>, versions: iset<Version>, language: int)
    decreases |requests|
  {
    requests != [] ==>
      && Versioned(requests[0], w, tables, versions, language)
      && AllVersioned(requests[1..], After(requests[0], w), tables, versions, language)
  }

  lemma InstallAdvance(env: Env, w: World, n: nat, tables: set<seq<Localized>>, versions: iset<Version>)
    requires Versioned(Installing(env, n), w, tables, versions, env.language)
    requires Known(w.scr, tables, env.language) && Separated(tables, env.language) && AllIn(w.scr.comps, versions)
    ensures var now := Steps(env, Running(START, w), n).world.scr.comps;
            AllIn(now, versions) && Advance(w.scr.comps, now, env.language, versions)
  {
    hide Lawful, Discreet, Steady, Known, Advance, AllIn, Steps, Install, ListOf, TempsOf, InstallFrom, Ordered, KnownPackages,
         PackagesIn, Separated;
    var c := Steps(env, Running(START, w), n);
    if c.Done? {
      DoneMeansSuccess(env, w, n);
      var f, root := SuccessParts(env, w);
      OrderedBounds(ListOf(env, w), f, root);
      var w1 := AfterNested(env, f, w);
      NestedKnown(env, f, w, tables);
      NestedAdvance(env, f, w, tables, versions);
      AllAdvance(env, ListOf(env, w), f, w1, TempsOf(env, w), tables, versions);
      AdvanceChain(w.scr.comps, w1.scr.comps, c.world.scr.comps, env.language, versions);
    } else {
      var k := Unfinished(env, w, n);
      NestedAdvance(env, k, w, tables, versions);
    }
  }

  lemma RemovedIn(w: World, id: int, versions: iset<Version>)
    requires AllIn(w.scr.comps, versions)
    ensures AllIn(Removed(w, id).scr.comps, versions)
  {
    hide KeysOf;
    var next := Removed(w, id).scr.comps;
    assert forall a :: IsReference(next, a) ==> IsReference(w.scr.comps, a) && next[a] == w.scr.comps[a];
  }

  lemma SettingIn(w: World, id: int, activated: bool, versions: iset<Version>)
    requires AllIn(w.scr.comps, versions) && SetState(w, id, activated).Ok?
    ensures AllIn(SetState(w, id, activated).value.scr.comps, versions)
  {
    var next := SetState(w, id, activated).value.scr.comps;
    assert forall a :: IsReference(next, a) ==> IsReference(w.scr.comps, a) && next[a].version == w.scr.comps[a].version;
  }

  /** The request is to uninstall the component that bears this name. */
  ghost predicate Targets(r: Request, w: World, language: int, name: Option<(string, string)>) {
    r.Uninstalling? && IsReference(w.scr.comps, r.req.id) && LocalName(w.scr.comps[r.req.id].locs, language) == name
  }

  lemma OneVersioned(r: Request, w: World, tables: set<seq<Localized>>, versions: iset<Version>, language: int)
    requires Versioned(r, w, tables, versions, language) && Known(w.scr, tables, language) && Separated(tables, language)
    requires AllIn(w.scr.comps, versions)
    ensures AllIn(After(r, w).scr.comps, versions)
    ensures forall a :: IsReference(w.scr.comps, a) ==>
              Climbed(w.scr.comps, After(r, w).scr.comps, language, versions, a) || Targets(r, w, language, LocalName(w.scr.comps[a].locs, language))
  {
    hide Lawful, Discreet, Steady, Known, AllIn, Steps, USteps, SetState, Removed, ListOf, TempsOf, KnownPackages, PackagesIn,
         Separated, Continued, Climbed, LocalName;
    AdvanceSame(w.scr.comps, language, versions);
    match r
    case Installing(env, n) => InstallAdvance(env, w, n, tables, versions);
    case Uninstalling(req, n) =>
      UninstallAllOrNothing(req, w, n);
      RemovedKnown(w, req.id, tables, language);
      RemovedIn(w, req.id, versions);
      var next := Removed(w, req.id).scr.comps;
      forall a | IsReference(w.scr.comps, a) && a != req.id ensures Climbed(w.scr.comps, next, language, versions, a) {
        ContinuedClimbs(w.scr.comps, next, language, versions, a);
      }
    case Setting(id, activated) =>
      if SetState(w, id, activated).Ok? {
        SettingKnown(w, id, activated, tables, language);
        SettingIn(w, id, activated, versions);
        ProgressAdvances(w.scr.comps, SetState(w, id, activated).value.scr.comps, language, versions);
      }
  }

  /** Some request of the history is to uninstall the component that bears this name
      when its turn comes. */
  ghost predicate SomeTargets(requests: seq<Request>, w: World, language: int, name: Option<(string, string)>)
    decreases |requests|
  {
    requests != [] && (Targets(requests[0], w, language, name) || SomeTargets(requests[1..], After(requests[0], w), language, name))
  }

  /** Until it is uninstalled, the component of a name only ever gives way to updates
      that the comparison takes for newer than what they replace, one after the other,
      whatever the versions and whatever else the history holds. */
  lemma {:induction false} VersionsClimb(requests: seq<Request>, w: World, tables: set<seq<Localized>>, versions: iset<Version>, language: int, a: int)
    requires AllVersioned(requests, w, tables, versions, language) && Separated(tables, language)
    requires Known(w.scr, tables, language) && AllIn(w.scr.comps, versions) && IsReference(w.scr.comps, a)
    ensures Climbed(w.scr.comps, AfterAll(requests, w).scr.comps, language, versions, a)
            || SomeTargets(requests, w, language, LocalName(w.scr.comps[a].locs, language))
    decreases |requests|
  {
    hide Known, AllIn, After, Separated, Climbed, LocalName, Targets;
    if requests == [] {
      AdvanceSame(w.scr.comps, language, versions);
    } else {
      var next := After(requests[0], w);
      OneVersioned(requests[0], w, tables, versions, language);
      NextKnown(requests[0], w, tables, versions, language);
      hide Versioned;
      if Climbed(w.scr.comps, next.scr.comps, language, versions, a) {
        var b := Successor(w.scr.comps, next.scr.comps, language, versions, a);
        VersionsClimb(requests[1..], next, tables, versions, language, b);
        if Climbed(next.scr.comps, AfterAll(requests[1..], next).scr.comps, language, versions, b) {
          ClimbedOn(w.scr.comps, next.scr.comps, AfterAll(requests[1..], next).scr.comps, language, versions, a, b);
        }
      }
    }
  }

  lemma NextKnown(r: Request, w: World, tables: set<seq<Localized>>, versions: iset<Version>, language: int)
    requires Versioned(r, w, tables, versions, language) && Known(w.scr, tables, language) && Separated(tables, language)
    ensures Known(After(r, w).scr, tables, language)
  {
    hide Known, Orderly, After, Separated;
    OneOrderly(r, w, tables, language);
  }

  /** What is hoped for: the name keeps its component or has a strictly newer one, or
      was uninstalled. */
  ghost predicate Rises(requests: seq<Request>, w: World, language: int, a: int)
    requires IsReference(w.scr.comps, a)
  {
    Continued(w.scr.comps, AfterAll(requests, w).scr.comps, language, a)
    || SomeTargets(requests, w, language, LocalName(w.scr.comps[a].locs, language))
  }

  /** Versions rise over every history whose versions the comparison orders
      transitively. */
  lemma VersionsRise(requests: seq<Request>, w: World, tables: set<seq<Localized>>, versions: iset<Version>, language: int, a: int)
    requires AllVersioned(requests, w, tables, versions, language) && Separated(tables, language)
    requires Known(w.scr, tables, language) && AllIn(w.scr.comps, versions) && IsReference(w.scr.comps, a)
    requires Transitive(versions)
    ensures Rises(requests, w, language, a)
  {
    hide Known, AllIn, AfterAll, AllVersioned, Separated, Climbed, Continued, LocalName, SomeTargets;
    VersionsClimb(requests, w, tables, versions, language, a);
    if Climbed(w.scr.comps, AfterAll(requests, w).scr.comps, language, versions, a) {
      ClimbedRises(w.scr.comps, AfterAll(requests, w).scr.comps, language, versions, a);
    }
  }

  /** Versions rise over all histories with these versions. */
  ghost predicate AlwaysRises(versions: iset<Version>) {
    forall requests, w: World, tables, language, a ::
      && AllVersioned(requests, w, tables, versions, language) && Separated(tables, language)
      && Known(w.scr, tables, language) && AllIn(w.scr.comps, versions) && IsReference(w.scr.comps, a) ==>
      Rises(requests, w, language, a)
  }

  lemma TransitiveRises(versions: iset<Version>)
    requires Transitive(versions)
    ensures AlwaysRises(versions)
  {
    hide Known, AllIn, AllVersioned, Separated, Rises, Transitive;
    forall requests, w: World, tables, language, a |
      && AllVersioned(requests, w, tables, versions, language) && Separated(tables, language)
      && Known(w.scr, tables, language) && AllIn(w.scr.comps, versions) && IsReference(w.scr.comps, a)
      ensures Rises(requests, w, language, a)
    {
      VersionsRise(requests, w, tables, versions, language, a);
    }
  }
}
