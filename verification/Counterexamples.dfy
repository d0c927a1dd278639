/** Runs in which something that the installer promises does not come out. */
module Counterexamples {
  import opened Platform
  import opened PkgText
  import opened PkgTextLaws
  import opened Unpack
  import opened PkgTree
  import opened PkgPaths
  import opened PkgRoundTrip
  import opened Registry
  import opened Orders
  import opened InstallModel
  import opened InstallSpec
  import opened InstallRuns
  import opened InstallSafety
  import opened InstallLaws
  import opened EndToEnd
  import opened History
  import opened Names
  import opened Versions
  import Activation
  import opened Witness
  import BinFormat

  // ---------------------------------------------------------------------------
  // Small packages
  // ---------------------------------------------------------------------------

  const Y1 := Record([LANG_ENGLISH], ["Y"], ["V"], Version(1, 0, 0), [])
  const XY := Record([LANG_ENGLISH, LANG_POLISH], ["X", "Y"], ["V", "V"], Version(1, 0, 0), [])
  const Y2 := Record([LANG_ENGLISH], ["Y"], ["V"], Version(2, 0, 0), [])
  const Y3 := Record([LANG_ENGLISH], ["Y"], ["V"], Version(3, 0, 0), [])

  /** A record without files, and nothing in it but letters and digits. */
  predicate Small(rec: Record) {
    && 1 <= |rec.languages| == |rec.names| == |rec.vendors| <= 2
    && (forall i :: 0 <= i < |rec.languages| ==> Supported(rec.languages[i]))
    && (forall i :: 0 <= i < |rec.names| ==> |rec.names[i]| == 1 && rec.names[i][0] != QUOTE)
    && (forall i :: 0 <= i < |rec.vendors| ==> |rec.vendors[i]| == 1 && rec.vendors[i][0] != QUOTE)
    && InRange(rec.version) && !rec.version.IsZero()
    && rec.files == []
  }

  lemma AllSmall()
    ensures Small(Y1) && Small(XY) && Small(Y2) && Small(Y3)
  {
  }

  lemma SmallGood(rec: Record)
    requires Small(rec)
    ensures Valid(rec) && OneLine(rec) && Complete(rec) && Named(Locs(rec))
  {
    hide CrlfFree, Printable;
    forall v | v in rec.names || v in rec.vendors ensures Printable(v) && CrlfFree(v) {
      OneCharacter(v);
    }
  }

  lemma OneCharacter(v: Text)
    requires |v| == 1 && v[0] != QUOTE
    ensures Printable(v) && CrlfFree(v)
  {
  }

  lemma QuotedShort(values: seq<Text>)
    requires |values| <= 2 && forall i :: 0 <= i < |values| ==> |values[i]| <= 2
    ensures |Quoted(values)| <= 10
  {
    assert Quoted([]) == [];
    if |values| == 2 {
      assert |Quoted(values[1..])| <= 5 by {
        assert values[1..][1..] == [];
      }
    }
  }

  lemma {:induction false} DecimalShort(n: nat, k: nat)
    requires 1 <= k && n < Power(k)
    ensures |Decimal(n)| <= k
    decreases k
  {
    if n >= 10 {
      DecimalShort(n / 10, k - 1);
    }
  }

  function Power(k: nat): nat {
    if k == 0 then 1 else 10 * Power(k - 1)
  }

  lemma SignedShort(n: int)
    requires -0x8000 <= n <= 0x7FFF
    ensures |Signed(n)| <= 6
  {
    assert Power(5) == 10 * Power(4) == 100 * Power(3) == 1000 * Power(2) == 100000;
    DecimalShort(if n < 0 then -n else n, 5);
  }

  lemma SmallShort(rec: Record)
    requires Small(rec)
    ensures |Join(Lines(rec), true)| <= 408
  {
    hide Join, Quoted, Signed, CrlfFree;
    QuotedShort(Codes(rec.languages));
    QuotedShort(rec.names);
    QuotedShort(rec.vendors);
    SignedShort(rec.version.major);
    SignedShort(rec.version.minor);
    SignedShort(rec.version.build);
    assert |VersionText(rec.version)| <= 30;
    assert FileLines(rec.files) == [];
    var lines := Lines(rec);
    assert |lines| == 4;
    assert forall i :: 0 <= i < 4 ==> |lines[i]| <= 100;
    JoinedLength(lines, true);
  }

  ghost function Request(rec: Record): Env
    requires Small(rec)
  {
    SmallShort(rec);
    SilentRequest(PATH, Written(rec, true, []))
  }

  // ---------------------------------------------------------------------------
  // One request
  // ---------------------------------------------------------------------------

  /** A device without files. */
  function Bare(comps: Components, nextId: int): World {
    World(map[], Scr(comps, nextId))
  }

  /** A record as it is registered. */
  function Of(rec: Record): Component
    requires Complete(rec)
  {
    ComponentOf(rec, false)
  }

  function Replacing(comps: Components, found: Found): Components {
    if found.status == UPGRADE then comps - {found.id} else comps
  }

  lemma AddedBare(comps: Components, nextId: int, rec: Record, found: Found)
    requires Complete(rec) && rec.files == []
    ensures Added(Cleared(Bare(comps, nextId), found), rec, false) == Bare(Replacing(comps, found)[nextId := Of(rec)], nextId + 1)
  {
    hide ComponentOf, Complete, Locs;
    var w := Cleared(Bare(comps, nextId), found);
    assert w.disk == map[];
    assert KeysOf([]) == {};
    assert Laid(w.disk, []) == map[];
  }

  lemma Admitted(env: Env, i: int, w: World, temps: Store, rec: Record)
    requires Complete(rec) && Named(Locs(rec)) && rec.files == [] && env.silent && Lookup(env, w.scr.comps, rec).status <= UPGRADE
    ensures Verdict(env, i, w, temps, rec) == Ok(())
  {
    hide Lookup, Cleared, Locs, Complete, Named;
    FoundInstalled(env, w.scr.comps, rec);
  }

  lemma TwentyAreEnough(env: Env, w: World)
    requires Lawful(env) && Install(env, w).Success? && Install(env, w).executions <= 20
    ensures Steps(env, Running(START, w), 20).Done? && Steps(env, Running(START, w), 20).world == Install(env, w).world
  {
    hide Lawful, Install, Steps;
    InstallRefined(env, w);
    var n := Install(env, w).executions;
    StepsConcat(env, Running(START, w), n, 20 - n);
    EndedStays(env, Steps(env, Running(START, w), n), 20 - n);
  }

  /** A request for a small package that the registry lets through. */
  lemma OneSmall(comps: Components, nextId: int, rec: Record)
    requires Small(rec) && Lookup(Request(rec), comps, rec).status <= UPGRADE
    requires forall id :: id in comps ==> comps[id].files == []
    ensures var found := Lookup(Request(rec), comps, rec);
            && Proper(Installing(Request(rec), 20), Bare(comps, nextId))
            && After(Installing(Request(rec), 20), Bare(comps, nextId)) == Bare(Replacing(comps, found)[nextId := Of(rec)], nextId + 1)
  {
    hide Lawful, Considerate, Install, Lines, Join, Valid, OneLine, Written, Lookup, ComponentOf, PkgFileName, IsRefPath, Complete, Locs,
         Named, Steps, Verdict, Added, Cleared;
    SmallGood(rec);
    SmallShort(rec);
    PathGood();
    var (env, w) := (Request(rec), Bare(comps, nextId));
    RequestLawful(PATH, Written(rec, true, []));
    WrittenInstalls(env, w, rec, true, []);
    Admitted(env, 0, w, map[TextKey(env) := Join(Lines(rec), true)], rec);
    AddedBare(comps, nextId, rec, Lookup(env, comps, rec));
    TwentyAreEnough(env, w);
  }

  // ---------------------------------------------------------------------------
  // Which component is found
  // ---------------------------------------------------------------------------

  lemma {:induction false} ViewAscends(comps: Components, order: seq<int>, name: string, vendor: string)
    requires Ascends(order)
    ensures Ascends(View(comps, order, name, vendor))
    decreases |order|
  {
    hide Matches;
    if order != [] {
      var rest := View(comps, order[1..], name, vendor);
      ViewAscends(comps, order[1..], name, vendor);
      forall id | id in rest ensures order[0] < id {
        var k :| 0 <= k < |order[1..]| && order[1..][k] == id;
        assert order[k + 1] == id;
      }
      AscendsCons(order[0], rest);
    }
  }

  /** What a search comes to that finds only older components: it names the one with
      the least identifier. */
  lemma LeastIsFound(env: Env, comps: Components, rec: Record, id: int)
    requires Complete(rec) && Lawful(env)
    requires env.order(comps, NameOfRecord(env, rec), VendorOfRecord(env, rec)) == Ascending(comps.Keys)
    requires id in comps && Rival(env, comps[id], rec)
    requires forall k :: k in comps && Rival(env, comps[k], rec) ==> id <= k && CompareVersions(comps[k].version, rec.version) < 0
    ensures Lookup(env, comps, rec).status == UPGRADE && Lookup(env, comps, rec).id == id
  {
    hide Lawful, Complete, Rival, CompareVersions, Lookup, View;
    var view := Rivals(env, comps, rec);
    NoDowngrade(env, comps, rec);
    ReplacesFirst(env, comps, rec);
    RivalsExactly(env, comps, rec);
    ViewAscends(comps, Ascending(comps.Keys), NameOfRecord(env, rec), VendorOfRecord(env, rec));
    assert view[0] in view && id in view;
  }

  lemma NewIsNew(env: Env, comps: Components, rec: Record)
    requires Complete(rec) && Lawful(env) && forall id :: id in comps ==> !Rival(env, comps[id], rec)
    ensures Lookup(env, comps, rec).status == NEW_COMPONENT
  {
    hide Lawful, Complete, Rival, Lookup;
    NoDowngrade(env, comps, rec);
  }

  // ---------------------------------------------------------------------------
  // Two components of one name
  // ---------------------------------------------------------------------------

  predicate IsY(rec: Record) {
    Small(rec) && rec.languages == [LANG_ENGLISH] && rec.names == ["Y"] && rec.vendors == ["V"]
  }

  lemma YRow(rec: Record)
    requires IsY(rec)
    ensures Complete(rec)
    ensures Matches(Of(rec), "Y", "V") && !Matches(Of(rec), "X", "V")
    ensures LocalName(Of(rec).locs, LANG_ENGLISH) == Some(("Y", "V"))
    ensures ChosenIndex(rec.languages, LANG_ENGLISH) == 0
  {
    var c := Of(rec);
    assert c.locs[0] == Localized("Y", "V", LANG_ENGLISH);
    assert LanguageIndex([LANG_ENGLISH], LANG_ENGLISH) == 0;
  }

  lemma XYRow()
    ensures Complete(XY)
    ensures Matches(Of(XY), "Y", "V")
    ensures LocalName(Of(XY).locs, LANG_ENGLISH) == Some(("X", "V"))
    ensures ChosenIndex(XY.languages, LANG_ENGLISH) == 0
  {
    var c := Of(XY);
    assert c.locs[0] == Localized("X", "V", LANG_ENGLISH) && c.locs[1] == Localized("Y", "V", LANG_POLISH);
    assert LanguageIndex([LANG_ENGLISH, LANG_POLISH], LANG_ENGLISH) == 0;
  }

  lemma YOlder(rec: Record, next: Record)
    requires Small(rec) && Small(next) && 0 <= rec.version.major < next.version.major
    ensures Complete(rec) && CompareVersions(Of(rec).version, next.version) < 0
  {
    CompareIsLexicographic(rec.version, next.version);
  }

  const STAGE1 := map[1 := Of(Y1)]
  const STAGE2 := map[1 := Of(Y1), 2 := Of(XY)]
  const STAGE3 := map[2 := Of(XY), 3 := Of(Y2)]
  const STAGE4 := map[3 := Of(Y2), 4 := Of(Y3)]

  /** A request for a small package, with executions enough to end by itself. */
  ghost function Next(rec: Record): Request
    requires Small(rec)
  {
    Installing(Request(rec), 20)
  }

  lemma FirstY()
    ensures Proper(Next(Y1), NEW_DEVICE) && After(Next(Y1), NEW_DEVICE) == Bare(STAGE1, 2)
  {
    hide Lookup, ComponentOf, Complete, After, Proper;
    AllSmall();
    YRow(Y1);
    RequestLawful(PATH, Request(Y1).data);
    NewIsNew(Request(Y1), map[], Y1);
    OneSmall(map[], 1, Y1);
  }

  lemma ThenXY()
    ensures Proper(Next(XY), Bare(STAGE1, 2)) && After(Next(XY), Bare(STAGE1, 2)) == Bare(STAGE2, 3)
  {
    hide Lookup, Complete, After, Proper, Matches;
    AllSmall();
    YRow(Y1);
    XYRow();
    RequestLawful(PATH, Request(XY).data);
    NewIsNew(Request(XY), STAGE1, XY);
    OneSmall(STAGE1, 2, XY);
    assert STAGE1[2 := Of(XY)] == STAGE2;
  }

  /** A small package of the name replaces the component with the least identifier. */
  lemma Upgrading(comps: Components, nextId: int, rec: Record, id: int)
    requires IsY(rec) && id in comps
    requires forall k :: k in comps ==>
               id <= k && comps[k].files == [] && Matches(comps[k], "Y", "V") && CompareVersions(comps[k].version, rec.version) < 0
    ensures Proper(Next(rec), Bare(comps, nextId))
    ensures After(Next(rec), Bare(comps, nextId)) == Bare((comps - {id})[nextId := Of(rec)], nextId + 1)
  {
    hide Lookup, Complete, After, Proper, Matches, CompareVersions, Lawful, ComponentOf, Ascending, Bare;
    YRow(rec);
    RequestLawful(PATH, Request(rec).data);
    LeastIsFound(Request(rec), comps, rec, id);
    OneSmall(comps, nextId, rec);
  }

  lemma ThenY2()
    ensures Proper(Next(Y2), Bare(STAGE2, 3)) && After(Next(Y2), Bare(STAGE2, 3)) == Bare(STAGE3, 4)
  {
    hide Complete, After, Proper, Matches, CompareVersions, ComponentOf, Bare, Next;
    AllSmall();
    YRow(Y1);
    XYRow();
    YOlder(Y1, Y2);
    YOlder(XY, Y2);
    NoFiles(Y1);
    NoFiles(XY);
    NoFiles(Y2);
    Upgrading(STAGE2, 3, Y2, 1);
    assert (STAGE2 - {1})[3 := Of(Y2)] == STAGE3;
  }

  lemma NoFiles(rec: Record)
    requires Small(rec)
    ensures Complete(rec) && Of(rec).files == []
  {
  }

  lemma ThenY3()
    ensures Proper(Next(Y3), Bare(STAGE3, 4)) && After(Next(Y3), Bare(STAGE3, 4)) == Bare(STAGE4, 5)
  {
    hide Complete, After, Proper, Matches, CompareVersions, ComponentOf, Bare, Next;
    AllSmall();
    YRow(Y2);
    XYRow();
    YOlder(XY, Y3);
    YOlder(Y2, Y3);
    NoFiles(XY);
    NoFiles(Y2);
    NoFiles(Y3);
    Upgrading(STAGE3, 4, Y3, 2);
    assert (STAGE3 - {2})[4 := Of(Y3)] == STAGE4;
  }

  lemma TwoYs(comps: Components, a: int, b: int, r: Record, s: Record)
    requires IsY(r) && IsY(s) && Complete(r) && Complete(s) && a != b && a in comps && b in comps
    requires comps[a] == Of(r) && comps[b] == Of(s)
    ensures !OnePerName(comps, LANG_ENGLISH)
  {
    hide LocalName, Complete, Matches;
    YRow(r);
    YRow(s);
    assert IsReference(comps, a) && IsReference(comps, b);
  }

  lemma StillApart()
    ensures OnePerName(STAGE3, LANG_ENGLISH)
  {
    hide LocalName, Complete, Matches, ComponentOf;
    AllSmall();
    XYRow();
    YRow(Y2);
  }

  lemma OneAfterAnother(r: Request, rest: seq<Request>, w: World)
    ensures AfterAll([r] + rest, w) == AfterAll(rest, After(r, w))
    ensures AllProper([r] + rest, w) == (Proper(r, w) && AllProper(rest, After(r, w)))
  {
    hide After, Proper;
    assert ([r] + rest)[1..] == rest;
  }

  lemma NoMore(w: World)
    ensures AfterAll([], w) == w && AllProper([], w)
  {
  }

  /** Y 1.0, then X with the name Y in Polish, then Y 2.0. */
  ghost function FirstThree(): seq<Request> {
    AllSmall();
    [Next(Y1), Next(XY), Next(Y2)]
  }

  /** And then Y 3.0. */
  ghost function AndY3(): Request {
    AllSmall();
    Next(Y3)
  }

  /** The registry lists its matches in ascending order, each package lists the device
      language, and every installation succeeds; and yet there are two components of
      one name at the end, and the third request was still fine. */
  lemma NameTwice()
    ensures AllProper(FirstThree() + [AndY3()], NEW_DEVICE)
    ensures AfterAll(FirstThree(), NEW_DEVICE) == Bare(STAGE3, 4) && OnePerName(STAGE3, LANG_ENGLISH)
    ensures AfterAll(FirstThree() + [AndY3()], NEW_DEVICE) == Bare(STAGE4, 5) && !OnePerName(STAGE4, LANG_ENGLISH)
  {
    hide After, AfterAll, Proper, AllProper, Next, OnePerName, Bare, Y1, XY, Y2, Y3, STAGE1, STAGE2, STAGE3, STAGE4, NEW_DEVICE;
    AllSmall();
    FirstY();
    ThenXY();
    ThenY2();
    ThenY3();
    StillApart();
    StageFour();
    var (a, b, c, d) := (Next(Y1), Next(XY), Next(Y2), Next(Y3));
    assert [a, b, c] == [a] + ([b] + ([c] + []));
    assert [a, b, c] + [d] == [a] + ([b] + ([c] + ([d] + [])));
    OneAfterAnother(d, [], Bare(STAGE3, 4));
    OneAfterAnother(c, [d] + [], Bare(STAGE2, 3));
    OneAfterAnother(b, [c] + ([d] + []), Bare(STAGE1, 2));
    OneAfterAnother(a, [b] + ([c] + ([d] + [])), NEW_DEVICE);
    OneAfterAnother(c, [], Bare(STAGE2, 3));
    OneAfterAnother(b, [c] + [], Bare(STAGE1, 2));
    OneAfterAnother(a, [b] + ([c] + []), NEW_DEVICE);
    NoMore(Bare(STAGE3, 4));
    NoMore(Bare(STAGE4, 5));
  }

  lemma StageFour()
    ensures !OnePerName(STAGE4, LANG_ENGLISH)
  {
    hide OnePerName, Complete, ComponentOf;
    AllSmall();
    YRow(Y2);
    YRow(Y3);
    TwoYs(STAGE4, 3, 4, Y2, Y3);
  }

  // ---------------------------------------------------------------------------
  // Versions that fall
  // ---------------------------------------------------------------------------

  /** The versions that a package can have. */
  predicate Admissible(v: Version) {
    InRange(v) && !v.IsZero()
  }

  function YOf(v: Version): Record {
    Record([LANG_ENGLISH], ["Y"], ["V"], v, [])
  }

  lemma YOfIsY(v: Version)
    requires Admissible(v)
    ensures IsY(YOf(v)) && Small(YOf(v)) && Complete(YOf(v))
  {
  }

  /** A device with this version and nothing else. */
  function Single(id: int, v: Version): World
    requires Admissible(v)
  {
    YOfIsY(v);
    Bare(map[id := Of(YOf(v))], id + 1)
  }

  ghost function ForY(v: Version): Request
    requires Admissible(v)
  {
    YOfIsY(v);
    Next(YOf(v))
  }

  lemma FirstOfY(v: Version)
    requires Admissible(v)
    ensures Proper(ForY(v), NEW_DEVICE) && After(ForY(v), NEW_DEVICE) == Single(1, v)
  {
    hide Lookup, ComponentOf, Complete, After, Proper, Admissible;
    YOfIsY(v);
    var rec := YOf(v);
    YRow(rec);
    RequestLawful(PATH, Request(rec).data);
    NewIsNew(Request(rec), map[], rec);
    OneSmall(map[], 1, rec);
  }

  lemma UpdateY(id: int, u: Version, v: Version)
    requires Admissible(u) && Admissible(v) && CompareVersions(u, v) < 0
    ensures Proper(ForY(v), Single(id, u)) && After(ForY(v), Single(id, u)) == Single(id + 1, v)
  {
    hide Complete, After, Proper, Matches, CompareVersions, ComponentOf, Bare, Next, Admissible;
    YOfIsY(u);
    YOfIsY(v);
    YRow(YOf(u));
    NoFiles(YOf(u));
    VersionOf(u);
    var comps := map[id := Of(YOf(u))];
    Upgrading(comps, id + 1, YOf(v), id);
    assert (comps - {id})[id + 1 := Of(YOf(v))] == map[id + 1 := Of(YOf(v))];
  }

  lemma VersionOf(v: Version)
    requires Admissible(v)
    ensures Complete(YOf(v)) && Of(YOf(v)).version == v && Of(YOf(v)).locs == [Localized("Y", "V", LANG_ENGLISH)]
    ensures Of(YOf(v)).softwareType == SOFTWARE_TYPE
  {
    assert Locs(YOf(v))[0] == Localized("Y", "V", LANG_ENGLISH);
  }

  lemma Endpoints()
    ensures Admissible(HIGH) && Admissible(LOW)
  {
  }

  /** From version -2.0 through v to -3.50. */
  ghost function Through(v: Version): seq<Request>
    requires Admissible(v)
  {
    Endpoints();
    [ForY(HIGH), ForY(v), ForY(LOW)]
  }

  /** With any version that has a major number of -1, updates on a new device lead from
      a component to an older one, and then the first package installs again. */
  lemma VersionFalls(v: Version)
    requires Admissible(v) && !Ranked(v)
    ensures Admissible(HIGH) && Admissible(LOW) && CompareVersions(LOW, HIGH) < 0
    ensures AllProper(Through(v) + [ForY(HIGH)], NEW_DEVICE)
    ensures AfterAll(Through(v), NEW_DEVICE) == Single(3, LOW)
    ensures AfterAll(Through(v) + [ForY(HIGH)], NEW_DEVICE) == Single(4, HIGH)
  {
    hide After, AfterAll, Proper, AllProper, ForY, Single, Admissible, CompareVersions, HIGH, LOW, NEW_DEVICE;
    Endpoints();
    Downwards(v);
    FirstOfY(HIGH);
    UpdateY(1, HIGH, v);
    UpdateY(2, v, LOW);
    UpdateY(3, LOW, HIGH);
    var (a, b, c) := (ForY(HIGH), ForY(v), ForY(LOW));
    assert [a, b, c] == [a] + ([b] + ([c] + []));
    assert [a, b, c] + [a] == [a] + ([b] + ([c] + ([a] + [])));
    OneAfterAnother(a, [], Single(3, LOW));
    OneAfterAnother(c, [a] + [], Single(2, v));
    OneAfterAnother(b, [c] + ([a] + []), Single(1, HIGH));
    OneAfterAnother(a, [b] + ([c] + ([a] + [])), NEW_DEVICE);
    OneAfterAnother(c, [], Single(2, v));
    OneAfterAnother(b, [c] + [], Single(1, HIGH));
    OneAfterAnother(a, [b] + ([c] + []), NEW_DEVICE);
    NoMore(Single(3, LOW));
    NoMore(Single(4, HIGH));
  }

  const TABLE := [Localized("Y", "V", LANG_ENGLISH)]

  lemma TableApart()
    ensures Separated({TABLE}, LANG_ENGLISH) && LocalName(TABLE, LANG_ENGLISH) == Some(("Y", "V"))
  {
    assert TABLE[0] == Localized("Y", "V", LANG_ENGLISH);
  }

  lemma OnlyKnown(id: int, v: Version, versions: iset<Version>)
    requires Admissible(v) && v in versions
    ensures Known(Single(id, v).scr, {TABLE}, LANG_ENGLISH) && AllIn(Single(id, v).scr.comps, versions)
    ensures IsReference(Single(id, v).scr.comps, id)
  {
    hide ComponentOf, Complete, Admissible;
    VersionOf(v);
  }

  /** What the task finds in a small package. */
  lemma SmallListed(rec: Record, w: World)
    requires Small(rec) && w.disk == map[]
    ensures |ListOf(Request(rec), w)| == 1 && RecordAt(TempsOf(Request(rec), w), ListOf(Request(rec), w)[0].fileName) == Ok(rec)
  {
    hide Lawful, Considerate, Lines, Join, Valid, OneLine, IsRefPath, Parse, ListOf, TempsOf, PkgFileName, Encode, Build, Small;
    SmallGood(rec);
    SmallShort(rec);
    PathGood();
    var env := Request(rec);
    RequestLawful(PATH, Written(rec, true, []));
    OneListed(env, w, PageOf(rec), []);
    TextRoundTrip(rec, true);
  }

  lemma AloneIsSteady(rec: Record, tables: set<seq<Localized>>, versions: iset<Version>)
    requires Small(rec)
    ensures Discreet(Request(rec), tables) && Steady(Request(rec), tables, versions) && Activation.HandsOff(Request(rec))
  {
    hide Known, AllIn, Advance, Small, Written;
    forall w: World ensures Advance(w.scr.comps, w.scr.comps, LANG_ENGLISH, versions) {
      AdvanceSame(w.scr.comps, LANG_ENGLISH, versions);
    }
  }

  lemma UpdateVersioned(id: int, u: Version, v: Version, versions: iset<Version>)
    requires Admissible(u) && Admissible(v) && v in versions
    ensures Versioned(ForY(v), Single(id, u), {TABLE}, versions, LANG_ENGLISH)
  {
    hide Lawful, Considerate, Discreet, Steady, ListOf, TempsOf, RecordAt, Complete, ComponentOf, Admissible, Small;
    YOfIsY(v);
    var rec := YOf(v);
    SmallListed(rec, Single(id, u));
    AloneIsSteady(rec, {TABLE}, versions);
    RequestLawful(PATH, Request(rec).data);
    VersionOf(v);
    RecordLocs(rec, false);
  }

  lemma TwoUpdates(u: Version, v: Version, w: Version, versions: iset<Version>)
    requires Admissible(u) && Admissible(v) && Admissible(w) && u in versions && v in versions && w in versions
    requires CompareVersions(u, v) < 0 && CompareVersions(v, w) < 0
    ensures var requests := [ForY(v), ForY(w)];
            && AllVersioned(requests, Single(1, u), {TABLE}, versions, LANG_ENGLISH)
            && AfterAll(requests, Single(1, u)) == Single(3, w)
            && !SomeTargets(requests, Single(1, u), LANG_ENGLISH, Some(("Y", "V")))
  {
    hide After, Versioned, Proper, Admissible, CompareVersions, Single, LocalName, Next;
    UpdateY(1, u, v);
    UpdateY(2, v, w);
    UpdateVersioned(1, u, v, versions);
    UpdateVersioned(2, v, w, versions);
    NotUninstalling(v);
    NotUninstalling(w);
    hide ForY;
    TwoRequests(ForY(v), ForY(w), Single(1, u), Single(2, v), versions);
  }

  lemma TwoRequests(a: Request, b: Request, w: World, next: World, versions: iset<Version>)
    requires !a.Uninstalling? && !b.Uninstalling? && After(a, w) == next
    requires Versioned(a, w, {TABLE}, versions, LANG_ENGLISH) && Versioned(b, next, {TABLE}, versions, LANG_ENGLISH)
    ensures AllVersioned([a, b], w, {TABLE}, versions, LANG_ENGLISH)
    ensures AfterAll([a, b], w) == After(b, next)
    ensures !SomeTargets([a, b], w, LANG_ENGLISH, Some(("Y", "V")))
  {
    hide After, Versioned, LocalName;
    assert [a, b][1..] == [b] && [b][1..] == [];
    assert AfterAll([], After(b, next)) == After(b, next);
    assert AllVersioned([b], next, {TABLE}, versions, LANG_ENGLISH);
    assert !SomeTargets([b], next, LANG_ENGLISH, Some(("Y", "V")));
  }

  lemma NotUninstalling(v: Version)
    requires Admissible(v)
    ensures !ForY(v).Uninstalling?
  {
  }

  /** A fall of the comparison is a fall on the device. */
  lemma Fallen(u: Version, v: Version, w: Version, versions: iset<Version>)
    requires Admissible(u) && Admissible(v) && Admissible(w) && u in versions && v in versions && w in versions
    requires CompareVersions(u, v) < 0 && CompareVersions(v, w) < 0 && CompareVersions(u, w) >= 0
    ensures !AlwaysRises(versions)
  {
    hide AllVersioned, AfterAll, SomeTargets, Known, AllIn, Separated, CompareVersions, Complete, ComponentOf, Admissible;
    TwoUpdates(u, v, w, versions);
    TableApart();
    OnlyKnown(1, u, versions);
    VersionOf(u);
    VersionOf(w);
    var requests := [ForY(v), ForY(w)];
    assert !Continued(Single(1, u).scr.comps, Single(3, w).scr.comps, LANG_ENGLISH, 1);
    assert !Rises(requests, Single(1, u), LANG_ENGLISH, 1);
  }

  /** Over packages with given versions, versions rise in every history exactly if the
      comparison is transitive on them; with major numbers other than -1 it is. */
  lemma RisesExactly(versions: iset<Version>)
    requires forall v :: v in versions ==> Admissible(v)
    ensures AlwaysRises(versions) <==> Transitive(versions)
    ensures (forall v :: v in versions ==> Ranked(v)) ==> AlwaysRises(versions)
    ensures (exists v :: v in versions && !Ranked(v)) && HIGH in versions && LOW in versions ==> !AlwaysRises(versions)
  {
    hide AlwaysRises, CompareVersions, Admissible, Ranked;
    if Transitive(versions) {
      TransitiveRises(versions);
    } else {
      var u, v, w :| u in versions && v in versions && w in versions && CompareVersions(u, v) < 0 && CompareVersions(v, w) < 0
                     && CompareVersions(u, w) >= 0;
      Fallen(u, v, w, versions);
    }
    if forall v :: v in versions ==> Ranked(v) {
      RankedTransitive(versions);
    }
    if (exists v :: v in versions && !Ranked(v)) && HIGH in versions && LOW in versions {
      var v :| v in versions && !Ranked(v);
      Downwards(v);
      Fallen(HIGH, v, LOW, versions);
    }
  }

  // ---------------------------------------------------------------------------
  // A reported identifier of nothing
  // ---------------------------------------------------------------------------

  const KID_NAME: seq<byte> := "b.sifrefbinpkg"

  lemma KidPath()
    ensures IsRefPath(KID_NAME) && GoodName(KID_NAME)
  {
    hide Fold, AfterLast;
    var name: string := KID_NAME;
    assert name == ['b'] + BIN_PKG_EXT;
    assert forall i :: 1 <= i < 13 ==> BIN_PKG_EXT[i] != '.';
    AfterLastUnique(name, '.', 2);
    LowerCase();
    assert name[1..] == BIN_PKG_EXT;
    assert forall i :: 0 <= i < 13 ==> BIN_PKG_EXT[i] != '\\';
    assert '\\' !in BIN_PKG_EXT && '\\' !in ['b'];
    assert '\\' !in name;
  }

  lemma LowerCase()
    ensures Fold(BIN_PKG_EXT) == BIN_PKG_EXT
  {
    var r := Fold(BIN_PKG_EXT);
    assert forall i :: 0 <= i < 13 ==> r[i] == BIN_PKG_EXT[i];
  }

  function PageOf(rec: Record): Text {
    Join(Lines(rec), true)
  }

  /** A package of one version with a package of a newer version of it inside. */
  function Compound(): Tree {
    Tree(PageOf(Y1), [Kid(KID_NAME, Package(Tree(PageOf(Y2), [])))])
  }

  lemma LeafLimits(text: seq<byte>)
    requires |text| <= 408
    ensures Limits(Tree(text, [])) && |Encode(Tree(text, []))| <= 600
  {
    var t := Tree(text, []);
    assert ToWire(t).items == [];
  }

  lemma CompoundFits(t: Tree, inner: Tree, name: seq<byte>)
    requires |t.text| <= 408 && Limits(inner) && |Encode(inner)| <= 600 && t.kids == [Kid(name, Package(inner))]
    requires inner.kids == [] && IsRefPath(name) && GoodName(name) && |name| <= BinFormat.MAX_PATH
    ensures Limits(t) && GoodKids(t)
  {
    hide Encode, IsRefPath, GoodName;
    assert KidLimits(t.kids[0]);
    assert GoodKids(inner);
  }

  lemma CompoundTexts()
    ensures Texts(Compound()) == [Some(PageOf(Y1)), Some(PageOf(Y2))]
  {
    hide PageOf;
    var t := Compound();
    var inner := Tree(PageOf(Y2), []);
    assert KidTexts(inner, 0) == [];
    assert Texts(inner) == [Some(PageOf(Y2))];
    assert KidTexts(t, 1) == [];
    assert KidTexts(t, 0) == KidText(t, 0) + KidTexts(t, 1);
  }

  lemma CompoundGood()
    ensures Limits(Compound()) && GoodKids(Compound())
  {
    hide Limits, GoodKids, IsRefPath, GoodName, Encode, Join, Lines;
    AllSmall();
    SmallShort(Y1);
    SmallShort(Y2);
    KidPath();
    LeafLimits(PageOf(Y2));
    CompoundFits(Compound(), Tree(PageOf(Y2), []), KID_NAME);
  }

  ghost function CompoundRequest(): Env {
    CompoundGood();
    SilentRequest(PATH, Encode(Compound()) + [])
  }

  lemma NoneForeign(list: seq<Listed>)
    requires |list| == 2 && !list[0].foreign && !list[1].foreign
    ensures ForeignThenOwn(list) == list && Heads(list) == 0
  {
    assert list == [list[0]] + list[1..] && list[1..] == [list[1]] + list[1..][1..] && list[1..][1..] == [];
    forall foreign ensures Only(list, foreign) == if foreign then [] else list {
      assert Only([], foreign) == [];
      assert Only(list[1..], foreign) == if foreign then [] else [list[1]];
    }
  }

  lemma CompoundListed(w: World)
    requires w.disk == map[]
    ensures Lawful(CompoundRequest()) && Build(DiskStore(w.disk), CompoundRequest().path, CompoundRequest().data, PRIVATE_DIR, [], -1).Ok?
    ensures var list := ListOf(CompoundRequest(), w);
            var temps := TempsOf(CompoundRequest(), w);
            && |list| == 2 && Heads(list) == 0
            && list[0].root && !list[1].root
            && RecordAt(temps, list[0].fileName) == Ok(Y1) && RecordAt(temps, list[1].fileName) == Ok(Y2)
  {
    hide Lawful, Limits, GoodKids, IsRefPath, Encode, Build, Join, Lines, Considerate, TempsOf, ListOf, Nodes, Texts, Sorts, RecordAt, Parse,
         Fold, SubEntries, ToPack, ForeignThenOwn, Compound, Y1, Y2, Small;
    var (env, t) := (CompoundRequest(), Compound());
    CompoundGood();
    CompoundTexts();
    PathGood();
    RequestLawful(PATH, env.data);
    TreeListed(env, w, t, []);
    NoneForeign(Nodes(env, t));
    AllSmall();
    PageReads(Nodes(env, t)[0], Y1, TempsOf(env, w));
    PageReads(Nodes(env, t)[1], Y2, TempsOf(env, w));
  }

  lemma PageReads(node: Listed, rec: Record, temps: Store)
    requires Small(rec) && Reads(node, Some(PageOf(rec)), temps)
    ensures RecordAt(temps, node.fileName) == Ok(rec)
  {
    hide Valid, OneLine, Lines, Join, RecordAt, Parse, Small;
    SmallGood(rec);
    PrintedReads(node, Some(PageOf(rec)), Some(Page(rec, true)), temps);
  }

  lemma InstallTwo(env: Env, w: World, next: World, last: World)
    requires Build(DiskStore(w.disk), env.path, env.data, PRIVATE_DIR, [], -1).Ok?
    requires var list := ListOf(env, w);
             && |list| == 2 && Heads(list) == 0 && list[0].root && !list[1].root
             && InstallOne(env, 0, w, TempsOf(env, w), list[0].fileName) == Ok(next)
             && InstallOne(env, 1, next, TempsOf(env, w), list[1].fileName) == Ok(last)
    ensures Install(env, w).Success? && Install(env, w).world == last && Install(env, w).ids == [w.scr.nextId]
  {
    hide Build, InstallOne, CostOne, NewTemps, Listing, DiskStore;
    var (list, temps) := (ListOf(env, w), TempsOf(env, w));
    assert InstallFrom(env, list, 2, last, temps) == Ok(last);
    assert InstallFrom(env, list, 1, next, temps) == Ok(last);
    assert IdsFrom(list, 2, w.scr.nextId + 2) == [];
    assert IdsFrom(list, 1, w.scr.nextId + 1) == [];
  }

  lemma SmallOne(env: Env, i: int, comps: Components, nextId: int, temps: Store, fileName: string, rec: Record)
    requires Small(rec) && env.silent && !env.inactive && RecordAt(temps, fileName) == Ok(rec) && Lookup(env, comps, rec).status <= UPGRADE
    ensures Complete(rec)
    ensures InstallOne(env, i, Bare(comps, nextId), temps, fileName) ==
            Ok(Bare(Replacing(comps, Lookup(env, comps, rec))[nextId := Of(rec)], nextId + 1))
  {
    hide Lookup, RecordAt, Verdict, Complete, Named, Locs, ComponentOf, Added, Cleared;
    SmallGood(rec);
    Admitted(env, i, Bare(comps, nextId), temps, rec);
    AddedBare(comps, nextId, rec, Lookup(env, comps, rec));
  }

  /** Of a compound package with two versions of one component, the one inside replaces
      the root; the client is told an identifier under which nothing is registered. */
  lemma ReportedIsGone()
    ensures var (env, done) := (CompoundRequest(), Install(CompoundRequest(), NEW_DEVICE));
            && Lawful(env) && done.Success?
            && done.ids == [1] && 1 !in done.world.scr.comps
            && done.world == Bare(map[2 := Of(Y2)], 3)
  {
    hide CompoundRequest, Lawful, Install, ListOf, TempsOf, Build, InstallOne, RecordAt, Lookup, ComponentOf, Complete, Matches, CompareVersions,
         Heads, Small, Rival;
    var env := CompoundRequest();
    CompoundListed(NEW_DEVICE);
    var (list, temps) := (ListOf(env, NEW_DEVICE), TempsOf(env, NEW_DEVICE));
    AllSmall();
    RootFirst(env, temps, list[0].fileName);
    KidNext(env, temps, list[1].fileName);
    InstallTwo(env, NEW_DEVICE, Bare(STAGE1, 2), Bare(map[2 := Of(Y2)], 3));
  }

  lemma RootFirst(env: Env, temps: Store, fileName: string)
    requires env == CompoundRequest() && Lawful(env) && RecordAt(temps, fileName) == Ok(Y1)
    ensures InstallOne(env, 0, NEW_DEVICE, temps, fileName) == Ok(Bare(STAGE1, 2))
  {
    hide Lawful, Lookup, ComponentOf, Complete, InstallOne, RecordAt;
    AllSmall();
    YRow(Y1);
    NewIsNew(env, map[], Y1);
    SmallOne(env, 0, map[], 1, temps, fileName, Y1);
  }

  lemma KidNext(env: Env, temps: Store, fileName: string)
    requires env == CompoundRequest() && Lawful(env) && RecordAt(temps, fileName) == Ok(Y2)
    ensures InstallOne(env, 1, Bare(STAGE1, 2), temps, fileName) == Ok(Bare(map[2 := Of(Y2)], 3))
  {
    hide Lawful, Lookup, ComponentOf, Complete, InstallOne, RecordAt, Matches, CompareVersions;
    AllSmall();
    YRow(Y1);
    YRow(Y2);
    YOlder(Y1, Y2);
    LeastIsFound(env, STAGE1, Y2, 1);
    SmallOne(env, 1, STAGE1, 2, temps, fileName, Y2);
    assert (STAGE1 - {1})[2 := Of(Y2)] == map[2 := Of(Y2)];
  }
}
