/** The component registry, and the search that decides what installing a
    package would mean. */
module Registry {
  import opened Platform
  import opened PkgText

  const SOFTWARE_TYPE := "reference"

  /** TInstallStatus, in the order of its declaration. */
  const NEW_COMPONENT := 0
  const UPGRADE := 1
  const ALREADY_INSTALLED := 2
  const NEWER_INSTALLED := 3

  /** The name and vendor of a component in one language. */
  datatype Localized = Localized(name: string, vendor: string, language: int)

  datatype Component = Component(locs: seq<Localized>, softwareType: string, version: Version, files: seq<string>, size: int, activated: bool)

  type Components = map<int, Component>

  /** Identifiers are never given out twice. */
  datatype Scr = Scr(comps: Components, nextId: int)

  // ---------------------------------------------------------------------------
  // Versions
  // ---------------------------------------------------------------------------

  /** The next number of a version. The number -1 doubles as the mark of the end. */
  function NextNumber(numbers: seq<int>): int {
    if numbers == [] then ERR_NOT_FOUND else numbers[0]
  }

  function SumOfRest(numbers: seq<int>): int {
    if NextNumber(numbers) == ERR_NOT_FOUND then 0 else numbers[0] + SumOfRest(numbers[1..])
  }

  function CompareNumbers(left: seq<int>, right: seq<int>): int {
    if NextNumber(left) != ERR_NOT_FOUND && NextNumber(right) != ERR_NOT_FOUND then
      if left[0] != right[0] then left[0] - right[0] else CompareNumbers(left[1..], right[1..])
    else SumOfRest(left) - SumOfRest(right)
  }

  /** CompareVersionsL on version names of the form major.minor(build): equal names
      are equal, and otherwise the build number, glued to the minor number, is not
      looked at. */
  function CompareVersions(left: Version, right: Version): int {
    if left == right then 0 else CompareNumbers([left.major, left.minor], [right.major, right.minor])
  }

  /** The major number is not the one that the comparison takes for the end. */
  predicate Ranked(v: Version) {
    v.major != ERR_NOT_FOUND
  }

  /** The minor number as the comparison counts it. */
  function Minor(v: Version): int {
    if v.minor == ERR_NOT_FOUND then 0 else v.minor
  }

  predicate Before(l: Version, r: Version) {
    l.major < r.major || (l.major == r.major && Minor(l) < Minor(r))
  }

  /** On ranked versions, other negative numbers included, the comparison is the
      lexicographic order of major and minor numbers. */
  lemma CompareIsLexicographic(l: Version, r: Version)
    requires Ranked(l) && Ranked(r)
    ensures CompareVersions(l, r) < 0 <==> Before(l, r)
    ensures CompareVersions(l, r) > 0 <==> Before(r, l)
  {
    assert [l.major, l.minor][1..] == [l.minor] && [r.major, r.minor][1..] == [r.minor];
    assert [l.minor][1..] == [] && [r.minor][1..] == [];
    assert CompareNumbers([], []) == 0 && SumOfRest([]) == 0;
    assert SumOfRest([l.minor]) == Minor(l) && SumOfRest([r.minor]) == Minor(r);
    assert CompareNumbers([l.minor], [r.minor]) == Minor(l) - Minor(r);
  }

  /** Between any two ranked versions the version keeps the order: not before one of
      them and not after the other puts those two in the same order. */
  ghost predicate FitsIn(v: Version) {
    forall x, y :: Ranked(x) && Ranked(y) && CompareVersions(x, v) >= 0 && CompareVersions(v, y) >= 0 ==> CompareVersions(x, y) >= 0
  }

  /** Exactly the ranked versions have a place in the order. With a major number of
      -1, which the parser lets through, a version is equal to 0.0(1) and before
      -3.50, which itself is before 0.0(1). */
  lemma RankedExactly(v: Version)
    ensures Ranked(v) <==> FitsIn(v)
  {
    hide CompareVersions;
    if Ranked(v) {
      forall x, y | Ranked(x) && Ranked(y) && CompareVersions(x, v) >= 0 && CompareVersions(v, y) >= 0 ensures CompareVersions(x, y) >= 0 {
        CompareIsLexicographic(x, v);
        CompareIsLexicographic(v, y);
        CompareIsLexicographic(x, y);
      }
    } else {
      OutOfOrder(v);
    }
  }

  lemma OutOfOrder(v: Version)
    requires !Ranked(v)
    ensures var (x, y) := (Version(-3, 50, 0), Version(0, 0, 1));
            Ranked(x) && Ranked(y) && CompareVersions(x, v) > 0 && CompareVersions(v, y) == 0 && CompareVersions(x, y) < 0
  {
    assert [-3, 50][1..] == [50] && [50][1..] == [];
    assert [0, 0][1..] == [0] && [0][1..] == [];
    assert SumOfRest([v.major, v.minor]) == 0;
    assert SumOfRest([-3, 50]) == 47 && SumOfRest([0, 0]) == 0;
  }

  // ---------------------------------------------------------------------------
  // Searching for a package's component
  // ---------------------------------------------------------------------------

  /** Each language's name and vendor, as the package registers them. */
  function Locs(rec: Record): (r: seq<Localized>)
    requires Complete(rec)
    ensures |r| == |rec.languages|
    ensures forall i :: 0 <= i < |r| ==> r[i] == Localized(rec.names[i], rec.vendors[i], rec.languages[i])
  {
    seq(|rec.languages|, i requires 0 <= i < |rec.languages| => Localized(rec.names[i], rec.vendors[i], rec.languages[i]))
  }

  /** The registry filters by name and vendor on any one language of a component. */
  predicate HasRow(c: Component, name: string, vendor: string) {
    exists i :: 0 <= i < |c.locs| && c.locs[i].name == name && c.locs[i].vendor == vendor
  }

  predicate Matches(c: Component, name: string, vendor: string) {
    c.softwareType == SOFTWARE_TYPE && HasRow(c, name, vendor)
  }

  /** A reference component matches the name and vendor of each of its rows, whatever the
      language, and nothing else; a component of another installer never matches. */
  lemma MatchesMean(c: Component, name: string, vendor: string, k: nat)
    ensures c.softwareType == "reference" && k < |c.locs| ==> Matches(c, c.locs[k].name, c.locs[k].vendor)
    ensures (forall i :: 0 <= i < |c.locs| ==> c.locs[i].name != name || c.locs[i].vendor != vendor) ==> !Matches(c, name, vendor)
    ensures c.softwareType != "reference" ==> !Matches(c, name, vendor)
  {
    if k < |c.locs| {
      assert HasRow(c, c.locs[k].name, c.locs[k].vendor);
    }
  }

  datatype Found = Found(status: int, activated: bool, id: int)

  const NOTHING := Found(NEW_COMPONENT, false, 0)

  /** The status one installed version gives to a package of a version. */
  function StatusAgainst(installed: Version, version: Version): int {
    var cmp := CompareVersions(installed, version);
    if cmp > 0 then NEWER_INSTALLED else if cmp == 0 then ALREADY_INSTALLED else UPGRADE
  }

  /** The loop over the view of matching components, with its early exit. */
  function Search(comps: Components, view: seq<int>, version: Version, found: Found): Found
    requires forall id :: id in view ==> id in comps
  {
    if view == [] then found
    else
      var first := view[0];
      assert first in view;
      var c := comps[first];
      var cmp := CompareVersions(c.version, version);
      if cmp > 0 then Found(NEWER_INSTALLED, c.activated, view[0])
      else if cmp == 0 && found.status < ALREADY_INSTALLED then
        Search(comps, view[1..], version, Found(ALREADY_INSTALLED, c.activated, view[0]))
      else if cmp < 0 && found.status < UPGRADE then
        Search(comps, view[1..], version, Found(UPGRADE, c.activated, view[0]))
      else Search(comps, view[1..], version, found)
  }

  /** The result is the highest status that any component of the view gives, and it
      names a component that gives it. */
  ghost predicate Highest(comps: Components, view: seq<int>, version: Version, found: Found)
    requires forall id :: id in view ==> id in comps
  {
    && (forall id :: id in view ==> StatusAgainst(comps[id].version, version) <= found.status)
    && (if view == [] then found == NOTHING
        else found.id in view && StatusAgainst(comps[found.id].version, version) == found.status
             && comps[found.id].activated == found.activated)
  }

  lemma {:induction false} SearchIsMaximum(comps: Components, view: seq<int>, version: Version, found: Found)
    requires forall id :: id in view ==> id in comps
    requires NEW_COMPONENT <= found.status < NEWER_INSTALLED
    ensures var r := Search(comps, view, version, found);
            && found.status <= r.status
            && (forall id :: id in view ==> StatusAgainst(comps[id].version, version) <= r.status)
            && (r == found || (r.id in view && StatusAgainst(comps[r.id].version, version) == r.status && comps[r.id].activated == r.activated))
    decreases |view|
  {
    hide CompareVersions;
    if view != [] {
      var first := view[0];
      assert first in view && view == [first] + view[1..];
      var c := comps[first];
      var cmp := CompareVersions(c.version, version);
      if cmp <= 0 {
        var next := if cmp == 0 && found.status < ALREADY_INSTALLED then Found(ALREADY_INSTALLED, c.activated, view[0])
                    else if cmp < 0 && found.status < UPGRADE then Found(UPGRADE, c.activated, view[0])
                    else found;
        SearchIsMaximum(comps, view[1..], version, next);
      }
    }
  }

  lemma SearchHighest(comps: Components, view: seq<int>, version: Version)
    requires forall id :: id in view ==> id in comps
    ensures Highest(comps, view, version, Search(comps, view, version, NOTHING))
  {
    SearchIsMaximum(comps, view, version, NOTHING);
    if view != [] {
      assert view[0] in view;
      assert StatusAgainst(comps[view[0]].version, version) >= UPGRADE;
    }
  }

  lemma {:induction false} SearchStays(comps: Components, view: seq<int>, version: Version, found: Found)
    requires forall id :: id in view ==> id in comps && CompareVersions(comps[id].version, version) < 0
    requires found.status == UPGRADE
    ensures Search(comps, view, version, found) == found
    decreases |view|
  {
    hide CompareVersions;
    if view != [] {
      var first := view[0];
      assert first in view;
      SearchStays(comps, view[1..], version, found);
    }
  }

  /** When every component of the view is older, the search ends with the first. */
  lemma SearchFirst(comps: Components, view: seq<int>, version: Version)
    requires forall id :: id in view ==> id in comps && CompareVersions(comps[id].version, version) < 0
    ensures Search(comps, view, version, NOTHING) == if view == [] then NOTHING else Found(UPGRADE, comps[view[0]].activated, view[0])
  {
    hide CompareVersions;
    if view != [] {
      var first := view[0];
      assert first in view;
      SearchStays(comps, view[1..], version, Found(UPGRADE, comps[first].activated, first));
    }
  }

  /** Order-freeness: two views of the same components give the same status. */
  lemma SearchOrderFree(comps: Components, a: seq<int>, b: seq<int>, version: Version)
    requires forall id :: id in a <==> id in b
    requires forall id :: id in a ==> id in comps
    ensures Search(comps, a, version, NOTHING).status == Search(comps, b, version, NOTHING).status
  {
    SearchHighest(comps, a, version);
    SearchHighest(comps, b, version);
    assert a == [] || a[0] in b;
    assert b == [] || b[0] in a;
  }

  /** The filter over the components in an order of the registry's own. */
  function View(comps: Components, order: seq<int>, name: string, vendor: string): (r: seq<int>)
    ensures forall id :: id in r <==> id in order && id in comps && Matches(comps[id], name, vendor)
  {
    if order == [] then []
    else (if order[0] in comps && Matches(comps[order[0]], name, vendor) then [order[0]] else [])
         + View(comps, order[1..], name, vendor)
  }

  ghost predicate Distinct(ids: seq<int>) {
    forall i, j :: 0 <= i < j < |ids| ==> ids[i] != ids[j]
  }

  /** An order lists each component once. */
  ghost predicate Enumerates(order: seq<int>, comps: Components) {
    && (forall id :: id in order <==> id in comps)
    && Distinct(order)
  }

  /** A view lists each component that matches, once. */
  ghost predicate IsView(comps: Components, name: string, vendor: string, view: seq<int>) {
    && (forall id :: id in view <==> id in comps && Matches(comps[id], name, vendor))
    && Distinct(view)
  }

  lemma {:induction false} ViewDistinct(comps: Components, order: seq<int>, name: string, vendor: string)
    requires Distinct(order)
    ensures Distinct(View(comps, order, name, vendor))
    decreases |order|
  {
    hide Matches;
    if order != [] {
      ViewDistinct(comps, order[1..], name, vendor);
      assert order[0] !in order[1..];
    }
  }

  lemma ViewIsView(comps: Components, order: seq<int>, name: string, vendor: string)
    requires Enumerates(order, comps)
    ensures IsView(comps, name, vendor, View(comps, order, name, vendor))
  {
    hide View, Matches;
    ViewDistinct(comps, order, name, vendor);
  }

  /** FindComponentL: the loop as it runs over a view. */
  method FindComponentL(comps: Components, view: seq<int>, version: Version) returns (found: Found)
    requires forall id :: id in view ==> id in comps
    ensures found == Search(comps, view, version, NOTHING)
    ensures Highest(comps, view, version, found)
  {
    hide CompareVersions;
    found := NOTHING;
    SearchHighest(comps, view, version);
    var i := 0;
    assert view[0..] == view;
    while i < |view|
      invariant 0 <= i <= |view|
      invariant Search(comps, view, version, NOTHING) == Search(comps, view[i..], version, found)
    {
      assert view[i] in view;
      var component := comps[view[i]];
      assert view[i..][0] == view[i] && view[i..][1..] == view[i + 1..];
      var cmp := CompareVersions(component.version, version);
      if cmp > 0 {
        found := Found(NEWER_INSTALLED, component.activated, view[i]);
        return;
      } else if cmp == 0 && found.status < ALREADY_INSTALLED {
        found := Found(ALREADY_INSTALLED, component.activated, view[i]);
      } else if cmp < 0 && found.status < UPGRADE {
        found := Found(UPGRADE, component.activated, view[i]);
      }
      i := i + 1;
    }
    assert view[i..] == [];
  }
}
